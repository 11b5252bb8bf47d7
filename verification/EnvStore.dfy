/** The environment as a flat array of bytes: lookups, and setting variables in place
    (u-boot-v1.2/common/cmd_nvedit.c, u-boot-v1.2/common/env_common.c). */
module EnvStore {
  import opened Basics
  import opened EnvMap
  import opened EnvTheorems

  /** Where entry `i` begins. */
  function Start(entries: seq<Pair>, i: nat): nat
    requires i <= |entries|
  {
    |Bytes(entries[..i])|
  }

  lemma EntryIn(data: seq<char>, entries: seq<Pair>, i: nat)
    requires Represents(data, entries) && i < |entries|
    ensures var off, n := Start(entries, i), |entries[i].Text()|;
            && off + n + 1 == Start(entries, i + 1) <= |Bytes(entries)| < |data|
            && data[off..off + n] == entries[i].Text() && data[off + n] == NUL
            && forall k :: off <= k < off + n ==> data[k] != NUL
  {
    hide Bytes;
    var off, t := Start(entries, i), entries[i].Text();
    BytesSplit(entries, i + 1);
    BytesUpTo(entries, i);
    var all := Bytes(entries);
    assert all[off..off + |t|] == t && all[off + |t|] == NUL;
    assert forall k :: 0 <= k < |all| ==> data[k] == data[..|all|][k] == all[k];
    assert data[off..off + |t|] == t;
    forall k | off <= k < off + |t| ensures data[k] != NUL {
      TextNoNul(entries[i], k - off);
      assert data[k] == data[off..off + |t|][k - off];
    }
  }

  lemma RepresentsFacts(data: seq<char>, entries: seq<Pair>)
    requires Represents(data, entries)
    ensures AllValid(entries) && |Bytes(entries)| < |data| && data[..|Bytes(entries)|] == Bytes(entries)
  {
  }

  lemma EndOfEntries(data: seq<char>, entries: seq<Pair>)
    requires Represents(data, entries)
    ensures Start(entries, |entries|) == |Bytes(entries)| < |data| && data[|Bytes(entries)|] == NUL
    ensures Start(entries, 0) == 0
  {
    assert entries[..|entries|] == entries && entries[..0] == [];
  }

  /** The first pair of terminators is the last of the entries and their end. */
  lemma FirstPair(data: seq<char>, entries: seq<Pair>, p: nat)
    requires Represents(data, entries) && entries != [] && p < |Bytes(entries)|
    ensures (data[p] == NUL && data[p + 1] == NUL) <==> p == |Bytes(entries)| - 1
    ensures |Bytes(entries)| > 1
  {
    var all := Bytes(entries);
    assert forall k :: 0 <= k < |all| ==> data[k] == data[..|all|][k] == all[k];
    EndsWithNul(entries);
    StartsWithText(entries);
    if p + 1 < |all| {
      NoPairOfNuls(entries, p);
    }
  }

  lemma ValueAt(data: seq<char>, entries: seq<Pair>, i: nat)
    requires Represents(data, entries) && i < |entries|
    ensures var at, v := Start(entries, i) + |entries[i].key| + 1, entries[i].value;
            at + |v| < |data| && data[at..at + |v|] == v && data[at + |v|] == NUL && NUL !in v
  {
    EntryIn(data, entries, i);
    var off, t := Start(entries, i), entries[i].Text();
    assert data[off..off + |t|][|entries[i].key| + 1..] == t[|entries[i].key| + 1..] == entries[i].value;
  }

  class Store {
    const data: array<char>
    const crc32: seq<char> -> nat
    const overwrite: bool          // whether write-once variables may be overwritten
    var crc: nat
    ghost var entries: seq<Pair>

    ghost predicate Valid()
      reads this, data
    {
      Represents(data[..], entries)
    }

    /** The environment after relocation, when the stored one is not usable: the compiled-in defaults, their string
        terminator, and zeros. */
    constructor (size: nat, defaults: seq<char>, crc32: seq<char> -> nat, overwrite: bool, ghost entries: seq<Pair>)
      requires AllValid(entries) && defaults == Bytes(entries) + [NUL, NUL] && |defaults| <= size
      ensures Valid() && fresh(data) && data.Length == size && this.entries == entries
      ensures this.crc32 == crc32 && this.overwrite == overwrite && crc == crc32(data[..])
    {
      this.data := new char[size](i requires 0 <= i < size => if i < |defaults| then defaults[i] else NUL);
      this.crc32 := crc32;
      this.overwrite := overwrite;
      this.entries := entries;
      this.crc := 0;
      new;
      assert data[..|Bytes(entries)|] == Bytes(entries);
      crc := crc32(data[..]);
    }

    // ---------------------------------------------------------------- looking up

    static function CharAt(s: string, k: nat): char
      requires k <= |s|
    {
      if k < |s| then s[k] else NUL
    }

    /** The place of the value if the entry at `i2` is named `name`, and -1 otherwise. */
    method Envmatch(name: string, i2: nat, ghost e: Pair) returns (r: int)
      requires e.Valid() && NUL !in name
      requires i2 + |e.Text()| < data.Length && data[i2..i2 + |e.Text()|] == e.Text()
      ensures r == if e.key == Key(name) then i2 + |e.key| + 1 else -1
    {
      var k := 0;
      ghost var text := e.Text();
      assert forall j :: 0 <= j < |text| ==> data[i2 + j] == data[i2..i2 + |text|][j] == text[j];
      while CharAt(name, k) == data[i2 + k]
        invariant k <= |e.key| && k <= |name| && name[..k] == e.key[..k]
        decreases |e.key| - k
      {
        if CharAt(name, k) == '=' {
          MatchAt(name, e, k);
          return i2 + k + 1;
        }
        k := k + 1;
      }
      if CharAt(name, k) == NUL && data[i2 + k] == '=' {
        MatchAt(name, e, k);
        return i2 + k + 1;
      }
      NoMatchAt(name, e, k);
      return -1;
    }

    /** Where the text starting at `start` ends. */
    method Terminator(start: nat, ghost i: nat) returns (nxt: nat)
      requires Valid() && i < |entries| && start == Start(entries, i)
      ensures nxt == start + |entries[i].Text()| && nxt + 1 == Start(entries, i + 1) <= |Bytes(entries)| < data.Length
      ensures data[start..nxt] == entries[i].Text()
    {
      EntryIn(data[..], entries, i);
      nxt := start;
      while data[nxt] != NUL
        invariant start <= nxt <= start + |entries[i].Text()|
        decreases start + |entries[i].Text()| - nxt
      {
        nxt := nxt + 1;
      }
    }

    /** Finds the entry named `name`: where it starts and ends, and where its value is. */
    method Find(name: string) returns (oldval: int, env: nat, nxt: nat)
      requires Valid() && NUL !in name
      ensures var i := Index(entries, Key(name));
              && (oldval >= 0 <==> i < |entries|)
              && (i < |entries| ==>
                    && env == Start(entries, i) && nxt + 1 == Start(entries, i + 1)
                    && oldval == env + |entries[i].key| + 1)
    {
      oldval, env, nxt := -1, 0, 0;
      ghost var i := 0;
      EndOfEntries(data[..], entries);
      while data[env] != NUL
        invariant i <= |entries| && env == Start(entries, i) <= |Bytes(entries)| < data.Length
        invariant forall k :: 0 <= k < i ==> entries[k].key != Key(name)
        invariant oldval == -1
        decreases |entries| - i
      {
        nxt := Terminator(env, i);
        oldval := Envmatch(name, env, entries[i]);
        if oldval >= 0 {
          IndexIs(entries, Key(name), i);
          return;
        }
        env := nxt + 1;
        i := i + 1;
      }
      if i < |entries| {
        EntryIn(data[..], entries, i);
      }
      IndexIs(entries, Key(name), i);
    }

    /** The same, giving up at `limit`. */
    method TerminatorWithin(start: nat, limit: nat, ghost i: nat) returns (nxt: nat, over: bool)
      requires Valid() && i < |entries| && start == Start(entries, i)
      ensures over ==> limit < data.Length
      ensures !over ==>
                && nxt == start + |entries[i].Text()|
                && nxt + 1 == Start(entries, i + 1) <= |Bytes(entries)| < data.Length
                && data[start..nxt] == entries[i].Text()
    {
      EntryIn(data[..], entries, i);
      nxt := start;
      while data[nxt] != NUL
        invariant start <= nxt <= start + |entries[i].Text()|
        decreases start + |entries[i].Text()| - nxt
      {
        if nxt >= limit {
          return nxt, true;
        }
        nxt := nxt + 1;
      }
      over := false;
    }

    /** The place of the value of `name`, or -1. `limit` is the size of the environment with its header. */
    method Getenv(name: string, limit: nat) returns (r: int)
      requires Valid() && NUL !in name && data.Length <= limit
      ensures r == -1 <==> Lookup(entries, Key(name)) == None
      ensures r >= -1
      ensures r != -1 ==>
                var v := Lookup(entries, Key(name)).value;
                r + |v| < data.Length && data[r..r + |v|] == v && data[r + |v|] == NUL && NUL !in v
    {
      hide Bytes, Start, Index;
      var i := 0;
      ghost var n := 0;
      EndOfEntries(data[..], entries);
      while data[i] != NUL
        invariant n <= |entries| && i == Start(entries, n) <= |Bytes(entries)| < data.Length
        invariant n == |entries| ==> data[i] == NUL
        invariant forall k :: 0 <= k < n ==> entries[k].key != Key(name)
        decreases |entries| - n
      {
        var nxt, over := TerminatorWithin(i, limit, n);
        if over {
          return -1;
        }
        var val := Envmatch(name, i, entries[n]);
        if val >= 0 {
          IndexIs(entries, Key(name), n);
          ValueAt(data[..], entries, n);
          return val;
        }
        i := nxt + 1;
        n := n + 1;
      }
      if n < |entries| {
        EntryIn(data[..], entries, n);
      }
      IndexIs(entries, Key(name), n);
      return -1;
    }

    // ---------------------------------------------------------------- setting a variable in place

    /** Removes entry `i` by moving the entries behind it down over it. */
    method Delete(start: nat, end: nat, ghost i: nat)
      requires Valid() && i < |entries| && start == Start(entries, i) && end + 1 == Start(entries, i + 1)
      modifies data, `entries
      ensures Valid() && entries == old(entries[..i] + entries[i + 1..])
    {
      hide Bytes, OnePair, Represents;
      ghost var rest := entries[..i] + entries[i + 1..];
      ghost var head, tail := Bytes(entries[..i]), Bytes(entries[i + 1..]);
      BytesJoin(entries[..i], entries[i + 1..]);
      HeadOfEntries(data[..], entries, i);
      TailOfEntries(data[..], entries, i + 1);
      EntryIn(data[..], entries, i);
      var env, nxt := start, end + 1;
      if data[nxt] == NUL {
        assert tail == "";
        if env > 0 {
          env := env - 1;
        } else {
          data[env] := NUL;
        }
      } else {
        env := MoveDown(start, nxt, tail);
      }
      env := env + 1;
      data[env] := NUL;
      entries := rest;
      JoinedRepresents(data[..], rest, head, tail);
    }

    /** Moves `tail` and stops in front of its end. */
    method MoveDown(start: nat, src: nat, ghost tail: string) returns (env: nat)
      requires start < src && src + |tail| < data.Length && OnePair(tail)
      requires data[src..src + |tail|] == tail && data[src + |tail|] == NUL
      modifies data
      ensures env == start + |tail| - 1
      ensures data[..start] == old(data[..start]) && data[start..start + |tail|] == tail
    {
      var nxt := src;
      env := start;
      while true
        invariant start <= env && nxt - env == src - start && nxt < src + |tail|
        invariant data[..start] == old(data[..start])
        invariant data[start..env] == tail[..env - start]
        invariant data[nxt..src + |tail|] == tail[nxt - src..]
        invariant data[src + |tail|] == NUL
        decreases src + |tail| - nxt
      {
        ghost var p := nxt - src;
        assert data[nxt] == data[nxt..src + |tail|][0] == tail[p];
        assert nxt + 1 < src + |tail| ==> data[nxt + 1] == data[nxt..src + |tail|][1] == tail[p + 1];
        assert PairAt(tail, p) <==> p == |tail| - 1;
        data[env] := data[nxt];
        nxt := nxt + 1;
        if data[env] == NUL && data[nxt] == NUL {
          break;
        }
        env := env + 1;
      }
    }

    /** Where a new entry goes: behind the first pair of terminators, or at the very beginning. */
    method EndOfData() returns (env: nat)
      requires Valid()
      ensures env == |Bytes(entries)|
    {
      env := 0;
      EndOfEntries(data[..], entries);
      while data[env] != NUL || data[env + 1] != NUL
        invariant if entries == [] then env == 0 else env < |Bytes(entries)|
        invariant |Bytes(entries)| < data.Length
        decreases data.Length - env
      {
        assert entries != [];
        FirstPair(data[..], entries, env);
        env := env + 1;
      }
      if entries != [] {
        FirstPair(data[..], entries, env);
      }
      if env > 0 {
        env := env + 1;
      }
    }

    /** Copies a string and its terminator, and stops at the terminator. */
    method CopyString(at: nat, s: string) returns (env: nat)
      requires at + |s| < data.Length && NUL !in s
      modifies data
      ensures env == at + |s|
      ensures data[..env] == old(data[..at]) + s && data[env] == NUL
    {
      env := at;
      ghost var head := data[..at];
      var k := 0;
      data[env] := CharAt(s, k);
      while data[env] != NUL
        invariant k <= |s| && env == at + k && data[env] == CharAt(s, k)
        invariant data[..env] == head + s[..k]
        decreases |s| - k
      {
        ghost var sofar := data[..env + 1];
        env := env + 1;
        k := k + 1;
        data[env] := CharAt(s, k);
        assert data[..env] == sofar == head + s[..k];
      }
      assert s[..k] == s;
    }

    /** Appends `name`, '=' and the values, separated by spaces. */
    method Append(at: nat, name: string, vals: seq<string>)
      requires Valid() && at == |Bytes(entries)| && vals != [] && NUL !in name && (forall v :: v in vals ==> NUL !in v)
      requires at + |Entry(name, vals).Text()| + 2 <= data.Length
      modifies data, `entries
      ensures Valid() && entries == old(entries) + [Entry(name, vals)]
    {
      hide Bytes, Entry, Arguments, Represents;
      RepresentsFacts(data[..], entries);
      ghost var head, e := Bytes(entries), Entry(name, vals);
      ArgumentsAre(name, vals, |vals|);
      ArgumentsStart(name, vals);
      var env := CopyString(at, name);
      var i := 0;
      while i < |vals|
        modifies data
        invariant i <= |vals| && env == at + |Arguments(name, vals, i)| <= at + |e.Text()|
        invariant data[..env] == head + Arguments(name, vals, i) && data[env] == NUL
      {
        ArgumentsGrow(name, vals, i + 1);
        env := AppendOne(env, if i == 0 then '=' else ' ', vals[i]);
        i := i + 1;
      }
      ghost var sofar := data[..env + 1];
      env := env + 1;
      data[env] := NUL;
      assert data[..env] == sofar == head + e.Text() + [NUL];
      EntryValid(name, vals);
      AppendedRepresents(data[..], entries, e);
      entries := entries + [e];
    }

    method AppendOne(at: nat, separator: char, val: string) returns (env: nat)
      requires at + 1 + |val| < data.Length && NUL !in val
      modifies data
      ensures env == at + 1 + |val| && data[..env] == old(data[..at]) + [separator] + val && data[env] == NUL
    {
      ghost var head := data[..at];
      data[at] := separator;
      assert data[..at + 1] == head + [separator];
      env := CopyString(at + 1, val);
    }

    /** How many bytes a new entry and the end of the environment take. */
    method SizeNeeded(name: string, vals: seq<string>) returns (len: nat)
      requires vals != []
      ensures len == |Entry(name, vals).Text()| + 2
    {
      len := |name| + 2;
      for i := 0 to |vals|
        invariant len == |Arguments(name, vals, i)| + 2
      {
        len := len + |vals[i]| + 1;
      }
      ArgumentsAre(name, vals, |vals|);
    }

    /** Sets, replaces or deletes a variable. */
    method DoSetenv(name: string, req: Request, a: Answers) returns (ret: int)
      requires Valid() && Command(name, req, a).Valid()
      modifies this`crc, data, `entries
      ensures Valid()
      ensures Setting(entries, ret) == Set(old(entries), data.Length, overwrite, name, req, a)
      ensures ret == 0 ==> crc == crc32(data[..])
      ensures ret != 0 ==> crc == old(crc)
      ensures ret != 0 && entries == old(entries) ==> data[..] == old(data[..])
    {
      hide Bytes, Represents, Start, Entry, Key, Index;
      var oldval, env, nxt := Find(name);
      WithoutAt(entries, Key(name));
      if oldval >= 0 {
        if !overwrite && (name == "serial#" || name == "ethaddr") {
          return 1;
        }
        if name == "stdin" || name == "stdout" || name == "stderr" {
          if req == Give([]) {
            return 1;
          }
          if !a.deviceOk {
            return 1;
          }
        }
        if name == "baudrate" && !a.baudOk {
          return 1;
        }
        Delete(env, nxt, Index(entries, Key(name)));
      }
      if req.DeletesOnly() {
        crc := crc32(data[..]);
        return 0;
      }
      var at := EndOfData();
      var len := SizeNeeded(name, req.vals);
      if len > data.Length - at {
        return 1;
      }
      Append(at, name, req.vals);
      crc := crc32(data[..]);
      return 0;
    }

    /** Sets one variable to one value; without a value it is deleted. */
    method Setenv(name: string, value: Option<string>, a: Answers) returns (ret: int)
      requires Valid() && NUL !in name && (value.Some? ==> NUL !in value.value)
      modifies this`crc, data, `entries
      ensures Valid()
      ensures var req := if value.None? then Null else Give([value.value]);
              Setting(entries, ret) == Set(old(entries), data.Length, overwrite, name, req, a)
      ensures ret == 0 ==> crc == crc32(data[..])
    {
      ret := DoSetenv(name, if value.None? then Null else Give([value.value]), a);
    }
  }

  /** What stands in the store after the name and the first `n` values have been copied. */
  ghost function Arguments(name: string, vals: seq<string>, n: nat): string
    requires n <= |vals|
  {
    if n == 0 then name else Arguments(name, vals, n - 1) + (if n == 1 then "=" else " ") + vals[n - 1]
  }

  lemma ArgumentsStart(name: string, vals: seq<string>)
    requires vals != []
    ensures Arguments(name, vals, 0) == name && |name| <= |Arguments(name, vals, |vals|)|
  {
    ArgumentsGrow(name, vals, 1);
  }

  lemma JoinedRepresents(data: seq<char>, entries: seq<Pair>, head: string, tail: string)
    requires AllValid(entries) && Bytes(entries) == head + tail && |head| + |tail| < |data|
    requires data[..|head|] == head && data[|head|..|head| + |tail|] == tail && data[|head| + |tail|] == NUL
    requires entries == [] ==> |data| >= 2 && data[1] == NUL
    ensures Represents(data, entries)
  {
    hide Bytes;
    assert data[..|head| + |tail|] == data[..|head|] + data[|head|..|head| + |tail|];
  }

  lemma AppendedRepresents(data: seq<char>, entries: seq<Pair>, e: Pair)
    requires AllValid(entries) && e.Valid()
    requires var n := |Bytes(entries)| + |e.Text()| + 1;
             n < |data| && data[..n] == Bytes(entries) + e.Text() + [NUL] && data[n] == NUL
    ensures Represents(data, entries + [e])
  {
    hide Bytes;
    BytesAppend(entries, e);
  }

  lemma {:induction false} ArgumentsJoin(name: string, vals: seq<string>, n: nat)
    requires 0 < n <= |vals|
    ensures Arguments(name, vals, n) == name + "=" + Join(vals[..n])
  {
    var some := vals[..n];
    if n > 1 {
      ArgumentsJoin(name, vals, n - 1);
      assert some[..n - 1] == vals[..n - 1];
      assert Join(some) == Join(vals[..n - 1]) + " " + vals[n - 1];
    }
  }

  lemma ArgumentsAre(name: string, vals: seq<string>, n: nat)
    requires 0 < n == |vals|
    ensures Arguments(name, vals, n) == Entry(name, vals).Text()
  {
    ArgumentsJoin(name, vals, n);
    assert vals[..n] == vals;
  }

  lemma {:induction false} ArgumentsGrow(name: string, vals: seq<string>, n: nat)
    requires 0 < n <= |vals|
    ensures Arguments(name, vals, n) == Arguments(name, vals, n - 1) + [if n == 1 then '=' else ' '] + vals[n - 1]
    ensures |Arguments(name, vals, n)| <= |Arguments(name, vals, |vals|)|
    decreases |vals| - n
  {
    if n < |vals| {
      ArgumentsGrow(name, vals, n + 1);
    }
  }

  /** A terminator at `p` with another one, or nothing, behind it. */
  predicate PairAt(s: string, p: nat)
    requires p < |s|
  {
    s[p] == NUL && (p + 1 == |s| || s[p + 1] == NUL)
  }

  ghost predicate OnePair(s: string) {
    |s| > 1 && forall p :: 0 <= p < |s| ==> (PairAt(s, p) <==> p == |s| - 1)
  }

  lemma EntriesOnePair(entries: seq<Pair>)
    requires AllValid(entries) && entries != []
    ensures OnePair(Bytes(entries))
  {
    StartsWithText(entries);
    EndsWithNul(entries);
    var all := Bytes(entries);
    forall p | 0 <= p < |all| ensures PairAt(all, p) <==> p == |all| - 1 {
      if p + 1 < |all| {
        NoPairOfNuls(entries, p);
      }
    }
  }

  lemma HeadOfEntries(data: seq<char>, entries: seq<Pair>, i: nat)
    requires Represents(data, entries) && i <= |entries|
    ensures var head := Bytes(entries[..i]);
            |head| <= |Bytes(entries)| && data[..|head|] == head && (i == 0 <==> |head| == 0)
    ensures AllValid(entries[..i])
  {
    BytesSplit(entries, i);
    var all := Bytes(entries);
    assert data[..|all|][..Start(entries, i)] == data[..Start(entries, i)];
    if i > 0 {
      StartsWithText(entries[..i]);
    }
  }

  lemma TailOfEntries(data: seq<char>, entries: seq<Pair>, i: nat)
    requires Represents(data, entries) && i <= |entries|
    ensures var src, tail := Start(entries, i), Bytes(entries[i..]);
            && src + |tail| == |Bytes(entries)| < |data| && data[src..src + |tail|] == tail && data[src + |tail|] == NUL
            && (data[src] == NUL <==> i == |entries|) && (i == |entries| <==> tail == "")
            && (tail != "" ==> OnePair(tail))
    ensures AllValid(entries[i..])
  {
    BytesSplit(entries, i);
    var all, src, tail := Bytes(entries), Start(entries, i), Bytes(entries[i..]);
    assert data[src..|all|] == data[..|all|][src..] == tail;
    if i < |entries| {
      StartsWithText(entries[i..]);
      EntriesOnePair(entries[i..]);
      assert data[src] == data[src..|all|][0];
    }
  }

  lemma IndexIs(entries: seq<Pair>, key: string, i: nat)
    requires i <= |entries| && forall k :: 0 <= k < i ==> entries[k].key != key
    requires i < |entries| ==> entries[i].key == key
    ensures Index(entries, key) == i
  {
  }

  lemma TextAt(e: Pair, k: nat)
    requires k <= |e.key|
    ensures e.Text()[k] == if k < |e.key| then e.key[k] else '='
  {
  }

  lemma MatchAt(name: string, e: Pair, k: nat)
    requires e.Valid() && NUL !in name && k <= |name| && k <= |e.key| && name[..k] == e.key[..k]
    requires e.Text()[k] == '=' && (k < |name| ==> name[k] == '=')
    ensures k == |e.key| && Key(name) == e.key
  {
    TextAt(e, k);
    assert e.key[..|e.key|] == e.key;
    assert name[..k] == e.key[..k];
    KeyLengthIs(name, k);
  }

  lemma NoMatchAt(name: string, e: Pair, k: nat)
    requires e.Valid() && NUL !in name && k <= |name| && k <= |e.key| && name[..k] == e.key[..k]
    requires if k < |name| then name[k] != e.Text()[k] else e.Text()[k] != '='
    ensures Key(name) != e.key
  {
    TextAt(e, k);
    assert k < KeyLength(name) ==> Key(name)[k] == name[k];
  }
}
