/** The log buffer: a ring of the latest characters, and the level tags of its lines (u-boot-v1.2/common/cmd_log.c). */
module LogBuffer {
  import opened Basics

  const LOGBUFF_LEN: nat := 16384
  const BUF_SIZE: nat := 1024
  const DEFAULT_TAG: string := "<4>"

  // ---------------------------------------------------------------- the stream of logged characters

  predicate HasTag(s: string) {
    |s| >= 3 && s[0] == '<' && '0' <= s[1] <= '7' && s[2] == '>'
  }

  /** What the first character of `s` adds to the log: itself, with the default tag in front of it if it starts a line
      that has no tag. */
  function Head(s: string, mid: bool): (h: string)
    requires s != ""
    ensures |h| == (if mid || HasTag(s) then 1 else 4)
  {
    if mid || HasTag(s) then [s[0]] else DEFAULT_TAG + [s[0]]
  }

  /** What is logged for `s`, in the middle of a line or at the start of one. */
  function Stream(s: string, mid: bool): string {
    if s == "" then "" else Head(s, mid) + Stream(s[1..], s[0] != '\n')
  }

  /** Whether the next character continues a line. */
  function MidAfter(s: string, mid: bool): bool {
    if s == "" then mid else s[|s| - 1] != '\n'
  }

  /** The part of `s` that belongs to its last line, if that line starts in it. */
  function LastLine(s: string, mid: bool): string {
    if s == "" then ""
    else if !mid && '\n' !in s then s
    else LastLine(s[1..], s[0] != '\n')
  }

  /** A tag that is complete only when `b` follows `a`. */
  predicate CutsTag(a: string, b: string, mid: bool) {
    var line := LastLine(a, mid);
    line != "" && !HasTag(line) && HasTag(line + b)
  }

  lemma StreamFirst(c: char, rest: string, mid: bool)
    ensures Stream([c] + rest, mid) == Head([c] + rest, mid) + Stream(rest, c != '\n')
  {
    assert ([c] + rest)[1..] == rest;
  }

  lemma {:induction false} NoLineStarts(s: string)
    requires '\n' !in s
    ensures LastLine(s, true) == ""
  {
    if s != "" {
      NoLineStarts(s[1..]);
    }
  }

  lemma Prefixed(h: string, x: string, y: string, z: string)
    ensures h + x == h + y + z <==> x == y + z
  {
    if h + x == h + y + z {
      assert x == (h + x)[|h|..] && y + z == (h + y + z)[|h|..];
    }
  }

  /** Two calls log what one call with both strings would log, exactly unless a tag is cut in two between them. */
  lemma {:induction false} StreamJoin(a: string, b: string, mid: bool)
    ensures MidAfter(a + b, mid) == MidAfter(b, MidAfter(a, mid))
    ensures Stream(a + b, mid) == Stream(a, mid) + Stream(b, MidAfter(a, mid)) <==> !CutsTag(a, b, mid)
  {
    if a == "" {
      assert a + b == b;
    } else {
      var c, r := a[0], a[1..];
      assert a == [c] + r && a + b == [c] + (r + b);
      StreamJoin(r, b, c != '\n');
      StreamFirst(c, r, mid);
      StreamFirst(c, r + b, mid);
      JoinFirst(a, b, mid, Stream(r + b, c != '\n'), Stream(r, c != '\n'), Stream(b, MidAfter(a, mid)));
    }
  }

  lemma JoinFirst(a: string, b: string, mid: bool, x: string, y: string, z: string)
    requires a != "" && (x == y + z <==> !CutsTag(a[1..], b, a[0] != '\n'))
    ensures Head(a + b, mid) + x == Head(a, mid) + y + z <==> !CutsTag(a, b, mid)
  {
    assert forall i :: 0 <= i < |a| ==> (a + b)[i] == a[i];
    if mid || '\n' in a {
      assert mid || HasTag(a + b) == HasTag(a);
      assert Head(a + b, mid) == Head(a, mid);
      Prefixed(Head(a, mid), x, y, z);
    } else {
      NoLineStarts(a[1..]);
      assert x == y + z;
      Prefixed(Head(a, mid), x, y, z);
      if HasTag(a + b) != HasTag(a) {
        assert |Head(a + b, mid) + x| != |Head(a, mid) + y + z|;
      }
    }
  }

  lemma TagParts(u: string)
    ensures DEFAULT_TAG + u == ['<'] + (['4'] + (['>'] + u)) && HasTag(['<'] + (['4'] + (['>'] + u)))
  {
  }

  /** The tag itself is logged as it is, at the start of a line or later. */
  lemma TagAgain(u: string, mid: bool)
    ensures Stream(DEFAULT_TAG + u, mid) == DEFAULT_TAG + Stream(u, true)
  {
    hide Stream, HasTag;
    TagParts(u);
    StreamFirst('<', ['4'] + (['>'] + u), mid);
    StreamFirst('4', ['>'] + u, true);
    StreamFirst('>', u, true);
    TagParts(Stream(u, true));
  }

  lemma CharAgain(c: char, t: string)
    requires Stream(t, c != '\n') == t
    ensures Stream([c] + t, true) == [c] + t
    ensures HasTag([c] + t) ==> Stream([c] + t, false) == [c] + t
    ensures Stream(DEFAULT_TAG + [c] + t, false) == DEFAULT_TAG + [c] + t
  {
    hide Stream, HasTag;
    StreamFirst(c, t, true);
    StreamFirst(c, t, false);
    TagAgain([c] + t, false);
    assert DEFAULT_TAG + ([c] + t) == DEFAULT_TAG + [c] + t;
  }

  /** Everything in the log is tagged: logging it again changes nothing. */
  lemma {:induction false} StreamAgain(s: string, mid: bool)
    ensures Stream(Stream(s, mid), mid) == Stream(s, mid)
  {
    hide HasTag, Stream;
    if s != "" {
      var c, r := s[0], s[1..];
      assert s == [c] + r;
      StreamFirst(c, r, mid);
      StreamAgain(r, c != '\n');
      CharAgain(c, Stream(r, c != '\n'));
      if HasTag(s) {
        TagSurvives(s);
      }
    } else {
      NothingLogged(mid);
    }
  }

  lemma NothingLogged(mid: bool)
    ensures Stream("", mid) == ""
  {
  }

  lemma TagSurvives(s: string)
    requires HasTag(s)
    ensures HasTag(Stream(s, false))
  {
    var r := s[3..];
    assert s == [s[0]] + ([s[1]] + ([s[2]] + r));
    StreamFirst(s[0], [s[1]] + ([s[2]] + r), false);
    StreamFirst(s[1], [s[2]] + r, true);
    StreamFirst(s[2], r, true);
  }

  lemma {:induction false} RestOfLine(s: string)
    requires '\n' !in s
    ensures Stream(s, true) == s
  {
    if s != "" {
      RestOfLine(s[1..]);
    }
  }

  /** A line that begins with a digit from 0 to 7 in angle brackets is logged as it is; any other line gets the
      default tag; the rest of a line is logged as it is. */
  lemma LineTagged(s: string)
    requires s != "" && '\n' !in s
    ensures var tagged := |s| >= 3 && s[0] == '<' && '0' <= s[1] <= '7' && s[2] == '>';
            Stream(s, false) == if tagged then s else "<4>" + s
    ensures Stream(s, true) == s
  {
    hide Stream;
    RestOfLine(s);
    FirstOfRest(s, false);
    assert "" + s == s;
  }

  lemma {:induction false} NoLastLine(s: string, mid: bool)
    requires s != "" && s[|s| - 1] == '\n'
    ensures LastLine(s, mid) == ""
    decreases |s|
  {
    assert s[|s| - 1] in s;
    if |s| > 1 {
      NoLastLine(s[1..], s[0] != '\n');
    }
  }

  /** Lines are logged one by one: what follows a newline starts a line. */
  lemma LinesApart(a: string, b: string, mid: bool)
    ensures Stream(a + "\n" + b, mid) == Stream(a + "\n", mid) + Stream(b, false)
  {
    NoLastLine(a + "\n", mid);
    StreamJoin(a + "\n", b, mid);
  }

  // ---------------------------------------------------------------- the ring

  /** The place of character number `i` of the ring. */
  function Slot(start: nat, i: nat): (s: nat)
    ensures s < LOGBUFF_LEN
  {
    (start + i) % LOGBUFF_LEN
  }

  lemma SlotsApart(start: nat, i: nat, j: nat)
    requires i < j < i + LOGBUFF_LEN
    ensures Slot(start, i) != Slot(start, j)
  {
  }

  lemma SlotAfterWrap(start: nat, i: nat)
    ensures Slot((start + 1) % WORD_LIMIT, i) == Slot(start, i + 1)
  {
    var rounds := (start + 1) / WORD_LIMIT;
    assert start + 1 == (start + 1) % WORD_LIMIT + LOGBUFF_LEN * (WORD_LIMIT / LOGBUFF_LEN * rounds);
    WholeRounds((start + 1) % WORD_LIMIT + i, WORD_LIMIT / LOGBUFF_LEN * rounds);
  }

  lemma WholeRounds(a: nat, k: nat)
    ensures (a + LOGBUFF_LEN * k) % LOGBUFF_LEN == a % LOGBUFF_LEN
  {
  }

  lemma OneMoreCounted(n: nat)
    ensures (n % WORD_LIMIT + 1) % WORD_LIMIT == (n + 1) % WORD_LIMIT
  {
  }

  class Log {
    const logBuf: array<char>
    const buf: array<char>
    var logStart: nat
    var logSize: nat
    var loggedChars: nat
    var msgLevel: int
    ghost var logged: string       // everything logged so far

    ghost predicate Valid()
      reads this, logBuf
    {
      && logBuf.Length == LOGBUFF_LEN && buf.Length == BUF_SIZE && logBuf != buf
      && logSize == (if |logged| < LOGBUFF_LEN then |logged| else LOGBUFF_LEN)
      && loggedChars == |logged| % WORD_LIMIT && logStart < WORD_LIMIT
      && forall i :: 0 <= i < logSize ==> logBuf[Slot(logStart, i)] == logged[|logged| - logSize + i]
    }

    constructor ()
      ensures Valid() && fresh(logBuf) && fresh(buf) && logged == "" && msgLevel == -1
    {
      logBuf := new char[LOGBUFF_LEN];
      buf := new char[BUF_SIZE];
      logStart, logSize, loggedChars, msgLevel, logged := 0, 0, 0, -1, "";
    }

    method PutLog(c: char)
      requires Valid()
      modifies logBuf, `logStart, `logSize, `loggedChars, `logged
      ensures Valid() && logged == old(logged) + [c]
    {
      hide Slot;
      var at := Slot(logStart, logSize);
      forall i | 0 <= i < logSize && (logSize < LOGBUFF_LEN || i > 0) ensures Slot(logStart, i) != at {
        SlotsApart(logStart, i, logSize);
      }
      var next := (logStart + 1) % WORD_LIMIT;
      forall i | 0 <= i < logSize ensures Slot(next, i) == Slot(logStart, i + 1) {
        SlotAfterWrap(logStart, i);
      }
      OneMoreCounted(|logged|);
      logBuf[at] := c;
      logged := logged + [c];
      if logSize < LOGBUFF_LEN {
        logSize := logSize + 1;
      } else {
        logStart := next;
      }
      loggedChars := (loggedChars + 1) % WORD_LIMIT;
    }

    /** Logs one line, or what there is of it, up to `end`; the part logged ends with its newline, if it has one. */
    method LogLine(from: nat, end: nat) returns (p: nat, lineFeed: bool)
      requires Valid() && from < end <= buf.Length
      modifies logBuf, `logStart, `logSize, `loggedChars, `logged
      ensures Valid() && from <= p && (if lineFeed then p < end && buf[p] == '\n' else p == end)
      ensures var rest := if lineFeed then Stream(buf[p + 1..end], false) else "";
              logged + rest == old(logged) + Stream(buf[from..end], true)
      ensures MidAfter(buf[from..end], true) == if lineFeed then MidAfter(buf[p + 1..end], false) else true
    {
      hide Stream, MidAfter;
      p, lineFeed := from, false;
      while p < end
        invariant Valid() && from <= p <= end && !lineFeed
        invariant logged + Stream(buf[p..end], true) == old(logged) + Stream(buf[from..end], true)
        invariant MidAfter(buf[from..end], true) == MidAfter(buf[p..end], true)
      {
        assert buf[p..end] == [buf[p]] + buf[p + 1..end];
        StreamFirst(buf[p], buf[p + 1..end], true);
        MidFirst(buf[p], buf[p + 1..end], true);
        ghost var sofar := logged;
        PutLog(buf[p]);
        assert sofar + ([buf[p]] + Stream(buf[p + 1..end], buf[p] != '\n')) ==
               logged + Stream(buf[p + 1..end], buf[p] != '\n');
        if buf[p] == '\n' {
          lineFeed := true;
          break;
        }
        p := p + 1;
      }
      if !lineFeed {
        assert buf[p..end] == "";
        NothingLogged(true);
        NothingAfter(true);
      }
    }

    /** At the start of a line, sets the level from the tag, which is put in front of the line if there is none. */
    method StartLine(p: nat, end: nat) returns (q: nat)
      requires Valid() && 3 <= p < end < buf.Length && buf[end] == '\0' && '\0' !in buf[p..end]
      modifies `msgLevel, buf
      ensures Valid() && buf[p..] == old(buf[p..]) && msgLevel >= 0 && q <= p
      ensures forall k :: q <= k < p ==> buf[k] != '\n'
      ensures Stream(buf[q..end], true) == Stream(buf[p..end], old(msgLevel) >= 0)
      ensures MidAfter(buf[q..end], true) == MidAfter(buf[p..end], old(msgLevel) >= 0)
      ensures msgLevel == if old(msgLevel) >= 0 then old(msgLevel)
                          else if HasTag(buf[p..end]) then buf[p + 1] as int - '0' as int else 4
    {
      hide Stream, MidAfter;
      FirstOfRest(buf[p..end], msgLevel >= 0);
      q := p;
      if msgLevel < 0 {
        TagAt(buf[..], p, end);
        if buf[p] != '<' || buf[p + 1] < '0' || buf[p + 1] > '7' || buf[p + 2] != '>' {
          ghost var rest := buf[p..end];
          q := p - 3;
          buf[q], buf[q + 1], buf[q + 2] := '<', '4', '>';
          assert buf[q..end] == DEFAULT_TAG + rest;
          TagMid(rest);
        }
        msgLevel := buf[q + 1] as int - '0' as int;
      }
    }

    /** Logs a string; where a line starts without a level tag, the default one is put in front of it. */
    method LogbuffPrintk(line: string) returns (n: nat)
      requires Valid() && |line| + 4 <= BUF_SIZE && '\0' !in line
      modifies this, logBuf, buf
      ensures Valid() && n == |line|
      ensures logged == old(logged) + Stream(line, old(msgLevel) >= 0)
      ensures (msgLevel >= 0) == MidAfter(line, old(msgLevel) >= 0)
    {
      hide Stream, MidAfter, HasTag;
      CopyIn(line);
      n := |line|;
      var bufEnd := 3 + n;
      var p := 3;
      assert buf[3..bufEnd] == line;
      while p < bufEnd
        invariant Valid() && 3 <= p <= bufEnd + 1 && bufEnd < buf.Length && buf[bufEnd] == '\0'
        invariant p <= bufEnd ==> buf[p..bufEnd] == line[p - 3..]
        invariant p <= bufEnd ==>
                    && logged + Stream(line[p - 3..], msgLevel >= 0) == old(logged) + Stream(line, old(msgLevel) >= 0)
                    && MidAfter(line[p - 3..], msgLevel >= 0) == MidAfter(line, old(msgLevel) >= 0)
        invariant p > bufEnd ==>
                    && logged == old(logged) + Stream(line, old(msgLevel) >= 0)
                    && (msgLevel >= 0) == MidAfter(line, old(msgLevel) >= 0)
        decreases bufEnd + 1 - p
      {
        ghost var at, tail, rest := p, buf[p..], buf[p..bufEnd];
        ghost var all, mid := logged + Stream(rest, msgLevel >= 0), MidAfter(rest, msgLevel >= 0);
        p := StartLine(p, bufEnd);
        var lineFeed;
        assert buf[at..bufEnd] == tail[..bufEnd - at] == rest;
        p, lineFeed := LogLine(p, bufEnd);
        assert lineFeed || logged + "" == logged;
        assert all == logged + if lineFeed then Stream(buf[p + 1..bufEnd], false) else "";
        assert mid == if lineFeed then MidAfter(buf[p + 1..bufEnd], false) else true;
        assert p >= at && buf[p..] == tail[p - at..];
        if lineFeed {
          assert tail[..bufEnd - at] == rest == line[at - 3..];
          assert buf[p + 1..bufEnd] == tail[..bufEnd - at][p + 1 - at..] == line[p + 1 - 3..];
          msgLevel := -1;
        }
        p := p + 1;
      }
      if p == bufEnd {
        assert line[p - 3..] == "";
        NothingLogged(msgLevel >= 0);
        NothingAfter(msgLevel >= 0);
      }
    }

    method CopyIn(line: string)
      requires Valid() && |line| + 4 <= BUF_SIZE
      modifies buf
      ensures Valid() && buf[3..3 + |line|] == line && buf[3 + |line|] == '\0'
    {
      for i := 0 to |line|
        invariant buf[3..3 + i] == line[..i]
      {
        buf[3 + i] := line[i];
      }
      buf[3 + |line|] := '\0';
    }
  }

  lemma MidFirst(c: char, rest: string, mid: bool)
    ensures MidAfter([c] + rest, mid) == MidAfter(rest, c != '\n')
  {
  }

  lemma NothingAfter(mid: bool)
    ensures MidAfter("", mid) == mid
  {
  }

  lemma TagInFront(c: char, t: string)
    ensures DEFAULT_TAG + [c] + t == DEFAULT_TAG + ([c] + t) && "" + ([c] + t) == [c] + t
  {
  }

  lemma FirstOfRest(rest: string, mid: bool)
    requires rest != ""
    ensures Stream(rest, mid) == (if mid || HasTag(rest) then "" else DEFAULT_TAG) + Stream(rest, true)
    ensures MidAfter(rest, mid) == MidAfter(rest, true)
  {
    hide Stream, HasTag, MidAfter;
    MidFirst(rest[0], rest[1..], mid);
    MidFirst(rest[0], rest[1..], true);
    var c, r := rest[0], rest[1..];
    assert rest == [c] + r;
    StreamFirst(c, r, mid);
    StreamFirst(c, r, true);
    TagInFront(c, Stream(r, c != '\n'));
  }

  lemma TagMid(rest: string)
    requires rest != ""
    ensures Stream(DEFAULT_TAG + rest, true) == DEFAULT_TAG + Stream(rest, true)
    ensures MidAfter(DEFAULT_TAG + rest, true) == MidAfter(rest, true)
  {
    TagAgain(rest, true);
  }

  /** Up to the terminator of the string, the test in the buffer is the test of the string. */
  lemma TagAt(buf: seq<char>, p: nat, end: nat)
    requires p < end < |buf| && buf[end] == '\0' && '\0' !in buf[p..end]
    ensures buf[p] == '<' && '0' <= buf[p + 1] <= '7' ==> p + 2 < |buf|
    ensures HasTag(buf[p..end]) <==> buf[p] == '<' && '0' <= buf[p + 1] <= '7' && buf[p + 2] == '>'
  {
    var s := buf[p..end];
    assert forall i :: 0 <= i < |s| ==> s[i] == buf[p + i];
  }
}
