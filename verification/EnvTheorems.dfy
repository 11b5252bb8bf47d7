/** What every run of environment commands keeps (u-boot-v1.2/common/cmd_nvedit.c). */
module EnvTheorems {
  import opened Basics
  import opened EnvMap

  // ---------------------------------------------------------------- one command

  /** The entries with another key, in their order. */
  function Others(entries: seq<Pair>, key: string): seq<Pair> {
    if entries == [] then []
    else if entries[0].key == key then Others(entries[1..], key)
    else [entries[0]] + Others(entries[1..], key)
  }

  lemma {:induction false} NoneToDrop(entries: seq<Pair>, key: string)
    requires NoKey(entries, key)
    ensures Others(entries, key) == entries
  {
    if entries != [] {
      NoneToDrop(entries[1..], key);
    }
  }

  lemma {:induction false} WithoutIsOthers(entries: seq<Pair>, key: string)
    requires Unique(entries)
    ensures Without(entries, key) == Others(entries, key)
  {
    if entries != [] {
      if entries[0].key == key {
        NoneToDrop(entries[1..], key);
      } else {
        WithoutIsOthers(entries[1..], key);
      }
    }
  }

  lemma {:induction false} WithoutSubset(entries: seq<Pair>, key: string)
    ensures forall e :: e in Without(entries, key) ==> e in entries
  {
    if entries != [] {
      WithoutSubset(entries[1..], key);
    }
  }

  lemma {:induction false} WithoutUnique(entries: seq<Pair>, key: string)
    requires Unique(entries)
    ensures Unique(Without(entries, key)) && NoKey(Without(entries, key), key)
  {
    if entries != [] && entries[0].key != key {
      WithoutUnique(entries[1..], key);
      WithoutSubset(entries[1..], key);
      assert Without(entries, key)[1..] == Without(entries[1..], key);
    }
  }

  lemma {:induction false} AppendUnique(entries: seq<Pair>, e: Pair)
    requires Unique(entries) && NoKey(entries, e.key)
    ensures Unique(entries + [e])
  {
    if entries != [] {
      AppendUnique(entries[1..], e);
      assert (entries + [e])[1..] == entries[1..] + [e];
    }
  }

  lemma NotFound(entries: seq<Pair>, key: string)
    ensures NoKey(entries, key) <==> Lookup(entries, key) == None
  {
    var i := Index(entries, key);
    if i == |entries| {
      assert forall k :: 0 <= k < |entries| ==> entries[k].key != key;
    } else {
      assert entries[i] in entries;
    }
  }

  lemma LookupFirst(e: Pair, rest: seq<Pair>, key: string)
    ensures Lookup([e] + rest, key) == if e.key == key then Some(e.value) else Lookup(rest, key)
  {
    assert ([e] + rest)[1..] == rest;
  }

  lemma WithoutFirst(e: Pair, rest: seq<Pair>, key: string)
    ensures Without([e] + rest, key) == if e.key == key then rest else [e] + Without(rest, key)
  {
    assert ([e] + rest)[1..] == rest;
  }

  lemma {:induction false} LookupAppend(entries: seq<Pair>, e: Pair, key: string)
    ensures Lookup(entries + [e], key) ==
            if Lookup(entries, key).Some? then Lookup(entries, key) else if e.key == key then Some(e.value) else None
  {
    LookupFirst(e, [], key);
    assert [e] + [] == [e] == [] + [e];
    if entries != [] {
      LookupAppend(entries[1..], e, key);
      LookupFirst(entries[0], entries[1..], key);
      LookupFirst(entries[0], entries[1..] + [e], key);
      assert [entries[0]] + (entries[1..] + [e]) == entries + [e] && [entries[0]] + entries[1..] == entries;
    }
  }

  lemma {:induction false} LookupWithout(entries: seq<Pair>, gone: string, key: string)
    requires key != gone
    ensures Lookup(Without(entries, gone), key) == Lookup(entries, key)
  {
    if entries != [] {
      hide Lookup, Without;
      var e, rest := entries[0], entries[1..];
      assert entries == [e] + rest;
      WithoutFirst(e, rest, gone);
      LookupFirst(e, rest, key);
      LookupFirst(e, Without(rest, gone), key);
      LookupWithout(rest, gone, key);
    }
  }

  lemma KeyOf(name: string)
    ensures '=' !in name ==> Key(name) == name
  {
    assert name[..|name|] == name;
  }

  /** A command that returns 0 updates the ordered map: the old pair of the name is gone, a new pair is appended unless
      the command deletes, and all other pairs keep their order. A name without '=' gets exactly the joined values. */
  lemma SetUpdatesMap(entries: seq<Pair>, size: nat, overwrite: bool, name: string, req: Request, a: Answers)
    requires Unique(entries) && Set(entries, size, overwrite, name, req, a).ret == 0
    ensures Set(entries, size, overwrite, name, req, a).entries ==
            Others(entries, Key(name)) + if req.DeletesOnly() then [] else [Entry(name, req.vals)]
    ensures '=' !in name && !req.DeletesOnly() ==> Entry(name, req.vals) == Pair(name, Join(req.vals))
  {
    WithoutIsOthers(entries, Key(name));
    if !req.DeletesOnly() {
      EntryKey(name, req.vals);
    } else {
      assert Others(entries, Key(name)) + [] == Others(entries, Key(name));
    }
  }

  /** What a lookup finds after any command: its own value for the name set, the old answer for every other name. */
  lemma LookupAfterSet(entries: seq<Pair>, size: nat, overwrite: bool, name: string, req: Request, a: Answers,
                       key: string)
    requires Unique(entries)
    ensures var s := Set(entries, size, overwrite, name, req, a);
            && (key != Key(name) ==> Lookup(s.entries, key) == Lookup(entries, key))
            && (s.ret == 0 ==> Lookup(s.entries, Key(name)) ==
                               if req.DeletesOnly() then None else Some(Entry(name, req.vals).value))
  {
    var rest := Without(entries, Key(name));
    WithoutUnique(entries, Key(name));
    NotFound(rest, Key(name));
    if key != Key(name) {
      LookupWithout(entries, Key(name), key);
    }
    if !req.DeletesOnly() {
      EntryKey(name, req.vals);
      LookupAppend(rest, Entry(name, req.vals), key);
      LookupAppend(rest, Entry(name, req.vals), Key(name));
    }
  }

  lemma {:induction false} UniqueSplit(before: seq<Pair>, e: Pair, after: seq<Pair>)
    requires Unique(before + [e] + after)
    ensures NoKey(before, e.key) && NoKey(after, e.key)
    ensures Others(before + [e] + after, e.key) == before + after
  {
    var all := before + [e] + after;
    if before == [] {
      assert all[1..] == after && all[0] == e;
      NoneToDrop(after, e.key);
    } else {
      var rest := before[1..] + [e] + after;
      assert all[1..] == rest && all[0] == before[0];
      UniqueSplit(before[1..], e, after);
      assert e in rest;
      assert [before[0]] + (before[1..] + after) == before + after;
    }
  }

  /** The same by place: an old pair goes, the pairs in front of it and behind it stay as they are, and the new pair,
      with the values between an equals sign and its end, stands behind them all. */
  lemma SetReplaces(before: seq<Pair>, was: string, after: seq<Pair>, size: nat, overwrite: bool, name: string,
                    req: Request, a: Answers)
    requires '=' !in name && Unique(before + [Pair(name, was)] + after)
    requires Set(before + [Pair(name, was)] + after, size, overwrite, name, req, a).ret == 0
    ensures Set(before + [Pair(name, was)] + after, size, overwrite, name, req, a).entries ==
            if req == Null || req == Give([]) then before + after else before + after + [Pair(name, Join(req.vals))]
  {
    var all := before + [Pair(name, was)] + after;
    KeyOf(name);
    UniqueSplit(before, Pair(name, was), after);
    SetUpdatesMap(all, size, overwrite, name, req, a);
    assert before + after + [] == before + after;
  }

  /** A name that is not there is added behind all pairs, or nothing happens. */
  lemma SetAdds(entries: seq<Pair>, size: nat, overwrite: bool, name: string, req: Request, a: Answers)
    requires '=' !in name && Unique(entries) && (forall e :: e in entries ==> e.key != name)
    requires Set(entries, size, overwrite, name, req, a).ret == 0
    ensures Set(entries, size, overwrite, name, req, a).entries ==
            if req == Null || req == Give([]) then entries else entries + [Pair(name, Join(req.vals))]
  {
    KeyOf(name);
    NoneToDrop(entries, name);
    SetUpdatesMap(entries, size, overwrite, name, req, a);
    assert entries + [] == entries;
  }

  /** Values are joined in their order by single spaces. */
  lemma {:induction false} JoinedBySpaces(a: seq<string>, b: seq<string>)
    requires a != [] && b != []
    ensures Join(a + b) == Join(a) + " " + Join(b)
    ensures forall v :: Join([v]) == v
    decreases |b|
  {
    var vals := a + b;
    assert vals[|vals| - 1] == b[|b| - 1];
    if |b| == 1 {
      assert vals[..|vals| - 1] == a;
    } else {
      assert vals[..|vals| - 1] == a + b[..|b| - 1];
      JoinedBySpaces(a, b[..|b| - 1]);
    }
  }

  lemma BytesAppend(entries: seq<Pair>, e: Pair)
    ensures Bytes(entries + [e]) == Bytes(entries) + e.Text() + [NUL]
  {
    BytesJoin(entries, [e]);
    BytesOne(e);
  }

  /** The bytes of the entries: name, equals sign, value, null character, one entry behind the other. */
  lemma BytesOfEntries(before: seq<Pair>, key: string, value: string, after: seq<Pair>)
    ensures Bytes(before + [Pair(key, value)] + after) == Bytes(before) + key + "=" + value + "\0" + Bytes(after)
    ensures Bytes([]) == ""
  {
    NoBytes();
    hide Bytes;
    var e := Pair(key, value);
    BytesJoin(before + [e], after);
    BytesAppend(before, e);
    FourParts(Bytes(before), key, value, Bytes(after));
  }

  lemma NoBytes()
    ensures Bytes([]) == ""
  {
  }

  lemma FourParts(a: string, key: string, value: string, b: string)
    ensures a + (key + "=" + value) + [NUL] + b == a + key + "=" + value + "\0" + b
  {
    assert a + (key + "=" + value) == a + key + "=" + value;
  }

  /** What an environment of two variables looks like. */
  lemma LayoutExample(data: seq<char>)
    ensures Bytes([Pair("a", "1"), Pair("b", "2 3")]) == "a=1\0b=2 3\0"
    ensures data == "a=1\0b=2 3\0\0" ==> Represents(data, [Pair("a", "1"), Pair("b", "2 3")])
    ensures data == "\0\0" ==> Represents(data, [])
  {
    var a, b := Pair("a", "1"), Pair("b", "2 3");
    assert [a, b] == [] + [a] + [b] && [b] == [b] + [];
    BytesOfEntries([], "a", "1", [b]);
    BytesOne(b);
    assert a.Valid() && b.Valid();
  }

  // ---------------------------------------------------------------- the size of the store

  /** The entries and their end fit `size` bytes. */
  predicate Fits(entries: seq<Pair>, size: nat) {
    size >= 2 && |Bytes(entries)| < size
  }

  lemma BytesWithout(entries: seq<Pair>, key: string)
    ensures |Bytes(Without(entries, key))| <= |Bytes(entries)|
  {
    WithoutAt(entries, key);
    var i := Index(entries, key);
    if i < |entries| {
      BytesSplit(entries, i + 1);
      BytesUpTo(entries, i);
      BytesJoin(entries[..i], entries[i + 1..]);
    }
  }

  /** A value is refused for want of space exactly if the new environment does not fit; the old pair is gone then, and
      all others are still there. */
  lemma OverflowExactly(entries: seq<Pair>, size: nat, overwrite: bool, name: string, req: Request, a: Answers)
    requires Unique(entries) && size >= 2 && !req.DeletesOnly()
    requires Index(entries, Key(name)) < |entries| ==> !Refused(overwrite, name, req, a)
    ensures var s, rest := Set(entries, size, overwrite, name, req, a), Others(entries, Key(name));
            && (s.ret == 0 <==> Fits(rest + [Entry(name, req.vals)], size))
            && (s.ret == 0 <==> |Bytes(rest + [Entry(name, req.vals)]) + "\0"| <= size)
            && (s.ret != 0 ==> s == Setting(rest, 1))
  {
    WithoutIsOthers(entries, Key(name));
    BytesAppend(Others(entries, Key(name)), Entry(name, req.vals));
  }

  /** A command that fails changes the environment in one case only: the variable existed, was not protected, and its
      new value did not fit. It is deleted then. */
  lemma FailureChanges(entries: seq<Pair>, size: nat, overwrite: bool, name: string, req: Request, a: Answers)
    requires Unique(entries) && Set(entries, size, overwrite, name, req, a).ret != 0
    ensures Set(entries, size, overwrite, name, req, a).entries != entries <==>
            Lookup(entries, Key(name)).Some? && !Refused(overwrite, name, req, a)
    ensures Set(entries, size, overwrite, name, req, a).entries != entries ==>
              Lookup(Set(entries, size, overwrite, name, req, a).entries, Key(name)) == None
  {
    WithoutUnique(entries, Key(name));
    NotFound(Without(entries, Key(name)), Key(name));
    WithoutAt(entries, Key(name));
  }

  // ---------------------------------------------------------------- runs of commands

  /** One command with the answers it gets. */
  datatype Command = Command(name: string, req: Request, answers: Answers)
  {
    ghost predicate Valid() {
      NUL !in name && (req.Give? ==> forall v :: v in req.vals ==> NUL !in v)
    }
  }

  function Run(entries: seq<Pair>, size: nat, overwrite: bool, commands: seq<Command>): seq<Pair>
    decreases |commands|
  {
    if commands == [] then entries
    else
      var c := commands[|commands| - 1];
      Set(Run(entries, size, overwrite, commands[..|commands| - 1]), size, overwrite, c.name, c.req, c.answers).entries
  }

  lemma {:induction false} JoinNoNul(vals: seq<string>)
    requires vals != [] && forall v :: v in vals ==> NUL !in v
    ensures NUL !in Join(vals)
  {
    if |vals| > 1 {
      JoinNoNul(vals[..|vals| - 1]);
    }
  }

  lemma EntryValid(name: string, vals: seq<string>)
    requires NUL !in name && vals != [] && forall v :: v in vals ==> NUL !in v
    ensures Entry(name, vals).Valid()
  {
    JoinNoNul(vals);
  }

  lemma SetKeeps(entries: seq<Pair>, size: nat, overwrite: bool, c: Command)
    requires Unique(entries) && AllValid(entries) && Fits(entries, size) && c.Valid()
    ensures var s := Set(entries, size, overwrite, c.name, c.req, c.answers).entries;
            Unique(s) && AllValid(s) && Fits(s, size)
  {
    hide Bytes, Entry, Key, Index;
    WithoutUnique(entries, Key(c.name));
    WithoutSubset(entries, Key(c.name));
    BytesWithout(entries, Key(c.name));
    if !c.req.DeletesOnly() {
      EntryKey(c.name, c.req.vals);
      AppendUnique(Without(entries, Key(c.name)), Entry(c.name, c.req.vals));
      EntryValid(c.name, c.req.vals);
      BytesAppend(Without(entries, Key(c.name)), Entry(c.name, c.req.vals));
    }
  }

  /** Over every run of commands the names stay unique and the bytes stay valid and within the store. */
  lemma {:induction false} RunKeeps(entries: seq<Pair>, size: nat, overwrite: bool, commands: seq<Command>)
    requires Unique(entries) && AllValid(entries) && Fits(entries, size) && forall c :: c in commands ==> c.Valid()
    ensures var s := Run(entries, size, overwrite, commands); Unique(s) && AllValid(s) && Fits(s, size)
    decreases |commands|
  {
    if commands != [] {
      var before := commands[..|commands| - 1];
      RunKeeps(entries, size, overwrite, before);
      SetKeeps(Run(entries, size, overwrite, before), size, overwrite, commands[|commands| - 1]);
    }
  }

  // ---------------------------------------------------------------- variables that can be written once

  /** A name that means the variable `key` but is not spelled like it: `key` is followed by '='. */
  predicate Disguises(name: string, key: string) {
    '=' in name && Key(name) == key
  }

  /** A command keeps a write-once variable, whatever it asks for, exactly if its name is not the variable's followed by
      an equals sign: the protection looks at the whole name, the search only at what comes before the '='. */
  lemma WriteOnceStep(entries: seq<Pair>, size: nat, name: string, key: string)
    requires Unique(entries) && (key == "serial#" || key == "ethaddr") && Lookup(entries, key).Some?
    ensures !Disguises(name, key) <==>
            forall req, a :: Lookup(Set(entries, size, false, name, req, a).entries, key) == Lookup(entries, key)
  {
    KeyOf(name);
    if Disguises(name, key) {
      var req, a := Give([]), Answers(true, true);
      LookupAfterSet(entries, size, false, name, req, a, key);
      assert Lookup(Set(entries, size, false, name, req, a).entries, key) == None;
    } else {
      forall req, a ensures Lookup(Set(entries, size, false, name, req, a).entries, key) == Lookup(entries, key) {
        LookupAfterSet(entries, size, false, name, req, a, key);
      }
    }
  }

  /** Without overwriting, a variable that is present survives every command spelled like it exactly if it is one of
      the two that can be written once. */
  lemma KeptExactly(entries: seq<Pair>, size: nat, name: string)
    requires Unique(entries) && '=' !in name && Lookup(entries, name).Some?
    ensures (forall req, a :: Lookup(Set(entries, size, false, name, req, a).entries, name) ==
                              Lookup(entries, name)) <==>
            name == "serial#" || name == "ethaddr"
  {
    KeyOf(name);
    if name == "serial#" || name == "ethaddr" {
      WriteOnceStep(entries, size, name, name);
    } else {
      var req, a := Null, Answers(true, true);
      LookupAfterSet(entries, size, false, name, req, a, name);
      assert Lookup(Set(entries, size, false, name, req, a).entries, name) == None;
    }
  }

  /** When a command for a variable that is present is refused without a change: a write-once variable, where
      overwriting is off; a console that is to be deleted or cannot be assigned; a baud rate that is not supported. A
      variable that is not present is never refused but for space. */
  lemma RefusedExactly(entries: seq<Pair>, size: nat, overwrite: bool, name: string, req: Request, a: Answers)
    requires Unique(entries) && '=' !in name
    ensures Lookup(entries, name).Some? ==>
              (Set(entries, size, overwrite, name, req, a) == Setting(entries, 1) <==>
               || (!overwrite && (name == "serial#" || name == "ethaddr"))
               || ((name == "stdin" || name == "stdout" || name == "stderr") && (req == Give([]) || !a.deviceOk))
               || (name == "baudrate" && !a.baudOk))
    ensures Lookup(entries, name).None? && (req == Null || req == Give([])) ==>
              Set(entries, size, overwrite, name, req, a) == Setting(entries, 0)
    ensures Lookup(entries, name).None? && req != Null && req != Give([]) ==>
              (Set(entries, size, overwrite, name, req, a).ret == 0 <==>
               |Bytes(entries)| + |name| + |Join(req.vals)| + 3 <= size)
  {
    hide Bytes;
    KeyOf(name);
    NotFound(entries, name);
    WithoutIsOthers(entries, name);
    if Lookup(entries, name).None? {
      NoneToDrop(entries, name);
      if req != Null && req != Give([]) {
        EntryKey(name, req.vals);
      }
    } else if Set(entries, size, overwrite, name, req, a).ret != 0 {
      FailureChanges(entries, size, overwrite, name, req, a);
    }
  }

  /** Over every run of commands, a write-once variable that is present keeps its value, unless a command disguises
      it. */
  lemma {:induction false} WriteOnceOverRuns(entries: seq<Pair>, size: nat, commands: seq<Command>, key: string)
    requires Unique(entries) && AllValid(entries) && Fits(entries, size) && (forall c :: c in commands ==> c.Valid())
    requires (key == "serial#" || key == "ethaddr") && Lookup(entries, key).Some?
    requires forall c :: c in commands ==> !Disguises(c.name, key)
    ensures Lookup(Run(entries, size, false, commands), key) == Lookup(entries, key)
    decreases |commands|
  {
    if commands != [] {
      var before, c := commands[..|commands| - 1], commands[|commands| - 1];
      WriteOnceOverRuns(entries, size, before, key);
      RunKeeps(entries, size, false, before);
      WriteOnceStep(Run(entries, size, false, before), size, c.name, key);
    }
  }
}
