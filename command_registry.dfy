/**
 * The de-duplication loop of `registerCommands` in `src/index.ts`: commands
 * are put into a name-keyed record, so a later command replaces an earlier
 * one of the same name, and `Object.values` then lists the survivors in the
 * order their names were first inserted.
 */
module CommandRegistry {
  import opened Wrappers

  /**
   * One application command body.  `name` is None when the body has no name;
   * `definition` stands for the rest of the body, which the loop passes on
   * untouched.
   */
  datatype Command = Command(name: Option<string>, definition: string)

  /** `command.name` is truthy: present and not the empty string. */
  predicate Named(c: Command) {
    c.name.Some? && c.name.value != ""
  }

  /** The distinct names of the named commands, in order of first occurrence. */
  function NameOrder(cs: seq<Command>): seq<string> {
    if |cs| == 0 then []
    else
      var prefix := NameOrder(cs[..|cs| - 1]);
      var c := cs[|cs| - 1];
      if Named(c) && c.name.value !in prefix then prefix + [c.name.value] else prefix
  }

  /** The last named command called `n`, if any. */
  function LastNamed(cs: seq<Command>, n: string): (r: Option<Command>)
    ensures r.Some? ==> Named(r.value) && r.value.name.value == n && r.value in cs
  {
    if |cs| == 0 then None
    else if Named(cs[|cs| - 1]) && cs[|cs| - 1].name.value == n then Some(cs[|cs| - 1])
    else LastNamed(cs[..|cs| - 1], n)
  }

  /** For each name in turn, the last command of that name. */
  function ValuesFor(cs: seq<Command>, names: seq<string>): (r: seq<Command>)
    requires forall i :: 0 <= i < |names| ==> LastNamed(cs, names[i]).Some?
    ensures |r| == |names|
    ensures forall i :: 0 <= i < |names| ==> r[i] == LastNamed(cs, names[i]).value
  {
    if |names| == 0 then []
    else ValuesFor(cs, names[..|names| - 1]) + [LastNamed(cs, names[|names| - 1]).value]
  }

  /** The body `registerCommands(cs)` sends: `Object.values(hashSet)`. */
  function Registered(cs: seq<Command>): seq<Command> {
    NameOrderFacts(cs);
    ValuesFor(cs, NameOrder(cs))
  }

  /** The name order is duplicate-free and holds exactly the names some command carries. */
  lemma {:induction false} NameOrderFacts(cs: seq<Command>)
    ensures forall i, j :: 0 <= i < j < |NameOrder(cs)| ==> NameOrder(cs)[i] != NameOrder(cs)[j]
    ensures forall n :: n in NameOrder(cs) <==> LastNamed(cs, n).Some?
  {
    if |cs| > 0 {
      var prefix := cs[..|cs| - 1];
      NameOrderFacts(prefix);
      forall n ensures n in NameOrder(cs) <==> LastNamed(cs, n).Some? {
        if LastNamed(prefix, n).Some? {
          assert n in NameOrder(prefix);
        }
      }
    }
  }

  /** The de-duplication loop and `Object.values`, over a Dafny map standing for the record. */
  method Deduplicate(cs: seq<Command>) returns (body: seq<Command>)
    ensures body == Registered(cs)
  {
    var hashSet: map<string, Command> := map[];
    // The record's key insertion order, which `Object.values` follows.
    var keys: seq<string> := [];
    for i := 0 to |cs|
      invariant keys == NameOrder(cs[..i])
      invariant forall n :: n in hashSet <==> LastNamed(cs[..i], n).Some?
      invariant forall n :: n in hashSet ==> Some(hashSet[n]) == LastNamed(cs[..i], n)
    {
      assert cs[..i + 1][..i] == cs[..i];
      NameOrderFacts(cs[..i]);
      var command := cs[i];
      if !Named(command) {
        continue;
      }
      var name := command.name.value;
      if name !in hashSet {
        keys := keys + [name];
      }
      hashSet := hashSet[name := command];
    }
    assert cs[..|cs|] == cs;
    NameOrderFacts(cs);
    body := [];
    for j := 0 to |keys|
      invariant body == ValuesFor(cs, keys[..j])
    {
      assert keys[..j + 1][..j] == keys[..j];
      body := body + [hashSet[keys[j]]];
    }
    assert keys[..|keys|] == keys;
  }

  /** Every registered command is named, and no two share a name. */
  lemma RegisteredDistinct(cs: seq<Command>)
    ensures forall i :: 0 <= i < |Registered(cs)| ==> Named(Registered(cs)[i])
    ensures forall i, j :: 0 <= i < j < |Registered(cs)| ==> Registered(cs)[i].name != Registered(cs)[j].name
  {
    NameOrderFacts(cs);
  }

  /** A name is registered exactly when some input command carries it, and only input commands are sent. */
  lemma RegisteredNames(cs: seq<Command>)
    ensures forall n :: (exists i :: 0 <= i < |Registered(cs)| && Registered(cs)[i].name == Some(n)) <==>
      (exists i :: 0 <= i < |cs| && Named(cs[i]) && cs[i].name.value == n)
    ensures forall c :: c in Registered(cs) ==> c in cs
  {
    NameOrderFacts(cs);
    var r := Registered(cs);
    var order := NameOrder(cs);
    forall n ensures (exists i :: 0 <= i < |r| && r[i].name == Some(n)) <==>
      (exists i :: 0 <= i < |cs| && Named(cs[i]) && cs[i].name.value == n)
    {
      if exists i :: 0 <= i < |cs| && Named(cs[i]) && cs[i].name.value == n {
        var i :| 0 <= i < |cs| && Named(cs[i]) && cs[i].name.value == n;
        LastNamedFound(cs, i);
        var k :| 0 <= k < |order| && order[k] == n;
        assert r[k].name == Some(n);
      }
      if exists i :: 0 <= i < |r| && r[i].name == Some(n) {
        var i :| 0 <= i < |r| && r[i].name == Some(n);
        var c := LastNamed(cs, order[i]).value;
        var k :| 0 <= k < |cs| && cs[k] == c;
      }
    }
  }

  lemma {:induction false} LastNamedFound(cs: seq<Command>, i: nat)
    requires i < |cs| && Named(cs[i])
    ensures LastNamed(cs, cs[i].name.value).Some?
  {
    if i < |cs| - 1 {
      assert cs[..|cs| - 1][i] == cs[i];
      LastNamedFound(cs[..|cs| - 1], i);
    }
  }

  lemma {:induction false} LastNamedIsLast(cs: seq<Command>, i: nat)
    requires i < |cs| && Named(cs[i])
    requires forall j :: i < j < |cs| ==> !Named(cs[j]) || cs[j].name.value != cs[i].name.value
    ensures LastNamed(cs, cs[i].name.value) == Some(cs[i])
  {
    if i < |cs| - 1 {
      assert cs[..|cs| - 1][i] == cs[i];
      LastNamedIsLast(cs[..|cs| - 1], i);
    }
  }

  /** For a repeated name, the command sent is the last one with that name. */
  lemma RegisteredLastWins(cs: seq<Command>, i: nat)
    requires i < |cs| && Named(cs[i])
    requires forall j :: i < j < |cs| ==> !Named(cs[j]) || cs[j].name.value != cs[i].name.value
    ensures cs[i] in Registered(cs)
    ensures forall c :: c in Registered(cs) && c.name == cs[i].name ==> c == cs[i]
  {
    NameOrderFacts(cs);
    LastNamedIsLast(cs, i);
    var order := NameOrder(cs);
    var k :| 0 <= k < |order| && order[k] == cs[i].name.value;
    assert Registered(cs)[k] == cs[i];
    RegisteredDistinct(cs);
  }

  /**
   * Live commands are listed before local ones, so a local command is sent
   * in place of any live command of the same name.
   */
  lemma LocalOverridesLive(live: seq<Command>, local: seq<Command>, i: nat)
    requires i < |local| && Named(local[i])
    requires forall j :: i < j < |local| ==> !Named(local[j]) || local[j].name.value != local[i].name.value
    ensures local[i] in Registered(live + local)
    ensures forall c :: c in live && c.name == local[i].name && c != local[i] ==> c !in Registered(live + local)
  {
    var cs := live + local;
    assert cs[|live| + i] == local[i];
    forall j | |live| + i < j < |cs| ensures !Named(cs[j]) || cs[j].name.value != local[i].name.value {
      assert cs[j] == local[j - |live|];
    }
    RegisteredLastWins(cs, |live| + i);
  }

  /** Nothing is sent for an empty command list. */
  lemma RegisteredEmpty()
    ensures Registered([]) == []
  {
  }

  /**
   * Live `a`, an unnamed command, live `b` and a local `a`: the local `a`
   * takes the first slot, the one live `a` held, and `b` follows.
   */
  lemma OverrideExample(a: string, b: string, liveA: string, liveB: string, localA: string, other: string)
    requires a != "" && b != "" && a != b
    ensures Registered([Command(Some(a), liveA), Command(None, other), Command(Some(b), liveB),
                        Command(Some(a), localA)])
      == [Command(Some(a), localA), Command(Some(b), liveB)]
  {
    var cs := [Command(Some(a), liveA), Command(None, other), Command(Some(b), liveB), Command(Some(a), localA)];
    assert cs[..1] == [cs[0]] && cs[..1][..0] == [];
    assert NameOrder(cs[..1]) == [a];
    assert cs[..2][..1] == cs[..1];
    assert NameOrder(cs[..2]) == [a];
    assert cs[..3][..2] == cs[..2];
    assert NameOrder(cs[..3]) == [a, b];
    assert NameOrder(cs) == [a, b];
    assert LastNamed(cs, a) == Some(cs[3]);
    LastNamedIsLast(cs, 2);
  }
}
