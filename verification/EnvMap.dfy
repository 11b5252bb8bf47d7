/** The environment as an ordered map, what setting a variable does to it, and the layout of its bytes
    (u-boot-v1.2/common/cmd_nvedit.c). */
module EnvMap {
  import opened Basics

  const NUL: char := '\0'

  /** A variable: the text before and after the first '=' of its entry. */
  datatype Pair = Pair(key: string, value: string)
  {
    predicate Valid() {
      '=' !in key && NUL !in key && NUL !in value
    }

    function Text(): (s: string)
      ensures |s| == |key| + 1 + |value|
    {
      key + "=" + value
    }
  }

  ghost predicate AllValid(entries: seq<Pair>) {
    forall e :: e in entries ==> e.Valid()
  }

  // ---------------------------------------------------------------- names and texts

  /** How far `s` goes before its first '='. */
  function KeyLength(s: string): (n: nat)
    ensures n <= |s| && '=' !in s[..n] && (n < |s| ==> s[n] == '=')
  {
    if s == "" || s[0] == '=' then 0 else 1 + KeyLength(s[1..])
  }

  /** The part of a name that is compared: a name ends at its first '='. */
  function Key(s: string): string {
    s[..KeyLength(s)]
  }

  /** The entry with the text `s`. */
  function Parse(s: string): (e: Pair)
    requires '=' in s
    ensures e.Text() == s && '=' !in e.key && (NUL !in s ==> e.Valid())
  {
    assert s[..|s|] == s;
    Pair(Key(s), s[KeyLength(s) + 1..])
  }

  lemma {:induction false} KeyLengthIs(s: string, n: nat)
    requires n <= |s| && '=' !in s[..n] && (n < |s| ==> s[n] == '=')
    ensures KeyLength(s) == n
  {
    if n > 0 {
      assert s[..n] == [s[0]] + s[1..][..n - 1];
      KeyLengthIs(s[1..], n - 1);
    }
  }

  /** The values of a command joined by single spaces. */
  function Join(vals: seq<string>): string
    requires vals != []
  {
    if |vals| == 1 then vals[0] else Join(vals[..|vals| - 1]) + " " + vals[|vals| - 1]
  }

  /** What a command asks for: to give a variable some values, to delete it (no values), or to give it a null value. */
  datatype Request = Give(vals: seq<string>) | Null
  {
    predicate DeletesOnly() {
      Null? || vals == []
    }
  }

  /** The entry a command appends. */
  function Entry(name: string, vals: seq<string>): Pair
    requires vals != []
  {
    var s := name + "=" + Join(vals);
    assert s[|name|] == '=';
    Parse(s)
  }

  lemma EntryKey(name: string, vals: seq<string>)
    requires vals != []
    ensures Entry(name, vals).key == Key(name)
    ensures '=' !in name ==> Entry(name, vals) == Pair(name, Join(vals))
    ensures '=' in name ==> Entry(name, vals).value == Parse(name).value + "=" + Join(vals)
  {
    var s := name + "=" + Join(vals);
    var n := KeyLength(name);
    assert s[..n] == name[..n];
    if n == |name| {
      assert name[..n] == name;
      assert s[n] == '=';
    }
    KeyLengthIs(s, n);
  }

  // ---------------------------------------------------------------- the ordered map

  /** The place of the first entry with the key, or the number of entries. */
  function Index(entries: seq<Pair>, key: string): (i: nat)
    ensures i <= |entries|
    ensures forall k :: 0 <= k < i ==> entries[k].key != key
    ensures i < |entries| ==> entries[i].key == key
  {
    if entries == [] || entries[0].key == key then 0 else 1 + Index(entries[1..], key)
  }

  function Lookup(entries: seq<Pair>, key: string): Option<string> {
    var i := Index(entries, key);
    if i < |entries| then Some(entries[i].value) else None
  }

  /** The entries but for the first one with the key. */
  function Without(entries: seq<Pair>, key: string): seq<Pair> {
    if entries == [] then []
    else if entries[0].key == key then entries[1..]
    else [entries[0]] + Without(entries[1..], key)
  }

  lemma {:induction false} WithoutAt(entries: seq<Pair>, key: string)
    ensures var i := Index(entries, key);
            Without(entries, key) == if i < |entries| then entries[..i] + entries[i + 1..] else entries
  {
    if entries != [] && entries[0].key != key {
      WithoutAt(entries[1..], key);
      DropAfterFirst(entries, Index(entries[1..], key));
    }
  }

  lemma DropAfterFirst<T>(s: seq<T>, i: nat)
    requires s != []
    ensures i < |s[1..]| ==> [s[0]] + (s[1..][..i] + s[1..][i + 1..]) == s[..i + 1] + s[i + 2..]
    ensures [s[0]] + s[1..] == s
  {
  }

  predicate NoKey(entries: seq<Pair>, key: string) {
    forall e :: e in entries ==> e.key != key
  }

  /** No name occurs twice. */
  predicate Unique(entries: seq<Pair>) {
    entries == [] || (NoKey(entries[1..], entries[0].key) && Unique(entries[1..]))
  }

  /** What the surroundings of a command say: whether a console device could be assigned, and whether a baud rate is
      supported. */
  datatype Answers = Answers(deviceOk: bool, baudOk: bool)

  predicate WriteOnce(name: string) {
    name == "serial#" || name == "ethaddr"
  }

  predicate IsConsole(name: string) {
    name == "stdin" || name == "stdout" || name == "stderr"
  }

  /** An existing variable is not to be touched. The tests look at the whole name. */
  predicate Refused(overwrite: bool, name: string, req: Request, a: Answers) {
    || (!overwrite && WriteOnce(name))
    || (IsConsole(name) && (req == Give([]) || !a.deviceOk))
    || (name == "baudrate" && !a.baudOk)
  }

  datatype Setting = Setting(entries: seq<Pair>, ret: int)

  /** What setting a variable does to an environment of `size` bytes. */
  function Set(entries: seq<Pair>, size: nat, overwrite: bool, name: string, req: Request, a: Answers): Setting {
    if Index(entries, Key(name)) < |entries| && Refused(overwrite, name, req, a) then Setting(entries, 1)
    else
      var rest := Without(entries, Key(name));
      if req.DeletesOnly() then Setting(rest, 0)
      else
        var e := Entry(name, req.vals);
        if |Bytes(rest)| + |e.Text()| + 2 > size then Setting(rest, 1) else Setting(rest + [e], 0)
  }

  // ---------------------------------------------------------------- the layout

  /** The entries one after the other, each with its terminator. */
  function Bytes(entries: seq<Pair>): string {
    if entries == [] then "" else entries[0].Text() + [NUL] + Bytes(entries[1..])
  }

  /** `data` holds the entries, ended by a second terminator; without any entry, two terminators. */
  ghost predicate Represents(data: seq<char>, entries: seq<Pair>) {
    && AllValid(entries)
    && |Bytes(entries)| < |data|
    && data[..|Bytes(entries)|] == Bytes(entries)
    && data[|Bytes(entries)|] == NUL
    && (entries == [] ==> |data| >= 2 && data[1] == NUL)
  }

  lemma Associate(a: string, b: string, c: string)
    ensures a + (b + c) == a + b + c
  {
  }

  lemma {:induction false} BytesJoin(a: seq<Pair>, b: seq<Pair>)
    ensures Bytes(a + b) == Bytes(a) + Bytes(b)
  {
    if a == [] {
      assert a + b == b;
    } else {
      BytesJoin(a[1..], b);
      assert (a + b)[1..] == a[1..] + b;
      Associate(a[0].Text() + [NUL], Bytes(a[1..]), Bytes(b));
    }
  }

  lemma BytesOne(e: Pair)
    ensures Bytes([e]) == e.Text() + [NUL]
  {
    assert Bytes([e]) == e.Text() + [NUL] + Bytes([]);
  }

  lemma BytesSplit(entries: seq<Pair>, i: nat)
    requires i <= |entries|
    ensures Bytes(entries) == Bytes(entries[..i]) + Bytes(entries[i..])
  {
    hide Bytes;
    assert entries[..i] + entries[i..] == entries;
    BytesJoin(entries[..i], entries[i..]);
  }

  lemma BytesUpTo(entries: seq<Pair>, i: nat)
    requires i < |entries|
    ensures Bytes(entries[..i + 1]) == Bytes(entries[..i]) + (entries[i].Text() + [NUL])
  {
    hide Bytes;
    assert entries[..i + 1] == entries[..i] + [entries[i]];
    BytesJoin(entries[..i], [entries[i]]);
    BytesOne(entries[i]);
  }

  lemma TextNoNul(e: Pair, k: nat)
    requires e.Valid() && k < |e.Text()|
    ensures e.Text()[k] != NUL
  {
    if k < |e.key| {
      assert e.Text()[k] == e.key[k];
    } else if k > |e.key| {
      assert e.Text()[k] == e.value[k - |e.key| - 1];
    }
  }

  /** Two terminators never follow one another inside the entries; the first pair of terminators is their end. */
  lemma {:induction false} NoPairOfNuls(entries: seq<Pair>, p: nat)
    requires AllValid(entries) && p + 1 < |Bytes(entries)|
    ensures !(Bytes(entries)[p] == NUL && Bytes(entries)[p + 1] == NUL)
  {
    var e, rest := entries[0], entries[1..];
    var n := |e.Text()|;
    assert Bytes(entries) == e.Text() + [NUL] + Bytes(rest);
    if p < n {
      TextNoNul(e, p);
    } else if p == n {
      StartsWithText(rest);
    } else {
      assert Bytes(entries)[p] == Bytes(rest)[p - n - 1];
      NoPairOfNuls(rest, p - n - 1);
    }
  }

  lemma StartsWithText(entries: seq<Pair>)
    requires AllValid(entries) && entries != []
    ensures |Bytes(entries)| > 1 && Bytes(entries)[0] != NUL
  {
    TextNoNul(entries[0], 0);
    assert Bytes(entries)[0] == entries[0].Text()[0];
  }

  lemma {:induction false} EndsWithNul(entries: seq<Pair>)
    requires entries != []
    ensures Bytes(entries)[|Bytes(entries)| - 1] == NUL
  {
    if |entries| > 1 {
      EndsWithNul(entries[1..]);
    }
  }

  /** An entry is read off the bytes in one way only. */
  lemma SameText(a: Pair, b: Pair, s: string, t: string)
    requires a.Valid() && b.Valid() && a.Text() + [NUL] + s == b.Text() + [NUL] + t
    ensures a == b && s == t
  {
    var u := a.Text() + [NUL] + s;
    var m, n := |a.Text()|, |b.Text()|;
    assert u[m] == NUL && u[n] == NUL;
    if m < n {
      TextNoNul(b, m);
    } else if n < m {
      TextNoNul(a, n);
    }
    assert a.Text() == u[..m] == b.Text();
    assert s == u[m + 1..] == t;
    KeyLengthIs(a.Text(), |a.key|);
    KeyLengthIs(b.Text(), |b.key|);
    assert a.key == a.Text()[..|a.key|] && b.key == b.Text()[..|a.key|];
    assert a.value == a.Text()[|a.key| + 1..] && b.value == b.Text()[|a.key| + 1..];
  }

  /** The bytes say what the entries are: no bytes represent two environments. */
  lemma RepresentsOne(data: seq<char>, a: seq<Pair>, b: seq<Pair>)
    requires Represents(data, a) && Represents(data, b)
    ensures a == b
  {
    BytesThenNul(data, a);
    BytesThenNul(data, b);
    SameBytes(Bytes(a) + [NUL], Bytes(b) + [NUL], a, b, data);
  }

  lemma BytesThenNul(data: seq<char>, a: seq<Pair>)
    requires Represents(data, a)
    ensures Bytes(a) + [NUL] <= data
  {
    assert data[..|Bytes(a)| + 1] == data[..|Bytes(a)|] + [data[|Bytes(a)|]];
  }

  lemma FirstByte(entries: seq<Pair>)
    requires AllValid(entries)
    ensures (Bytes(entries) + [NUL])[0] == NUL <==> entries == []
  {
    if entries != [] {
      StartsWithText(entries);
    }
  }

  lemma {:induction false} SameBytes(s: string, t: string, a: seq<Pair>, b: seq<Pair>, data: seq<char>)
    requires s == Bytes(a) + [NUL] && t == Bytes(b) + [NUL] && s <= data && t <= data
    requires AllValid(a) && AllValid(b)
    ensures a == b
    decreases |a|
  {
    FirstByte(a);
    FirstByte(b);
    assert s[0] == data[0] == t[0];
    if a != [] {
      var da, db := data[|s|..], data[|t|..];
      Reassociate(a, s, data);
      Reassociate(b, t, data);
      SameText(a[0], b[0], Bytes(a[1..]) + [NUL] + da, Bytes(b[1..]) + [NUL] + db);
      SameBytes(Bytes(a[1..]) + [NUL], Bytes(b[1..]) + [NUL], a[1..], b[1..], Bytes(a[1..]) + [NUL] + da);
    }
  }

  lemma Reassociate(a: seq<Pair>, s: string, data: seq<char>)
    requires a != [] && s == Bytes(a) + [NUL] && s <= data
    ensures a[0].Text() + [NUL] + (Bytes(a[1..]) + [NUL] + data[|s|..]) == data
  {
    assert s + data[|s|..] == data;
  }
}
