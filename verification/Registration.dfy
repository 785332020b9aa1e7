/**
 * All-or-nothing command registration
 * (src/utils/registerNamespacedCommands.ts).
 *
 * The host keeps one holder per command id and refuses an id that is held. It
 * may also refuse a registration for a reason of its own. Undoing a
 * registration frees its id whoever holds it by then, so an owner that undid
 * the same registration twice could take an id away from someone else.
 */
module Registration {
  import opened Text

  /** What a call throws: an `Error` with a message, or some other value. */
  datatype Thrown = AnError(message: string) | AnyValue(value: nat)

  function Conflict(id: string): Thrown {
    AnError("command '" + id + "' already exists")
  }

  datatype Command = Command(id: string, legacy: Option<string>)

  // ---------------------------------------------------------------- specification

  /** One call of the host: a command's own id, or an alias that may be skipped. */
  datatype Attempt = Attempt(id: string, alias: bool)

  function Primaries(commands: seq<Command>): seq<Attempt> {
    if commands == [] then [] else [Attempt(commands[0].id, false)] + Primaries(commands[1..])
  }

  function Aliases(commands: seq<Command>): seq<Attempt> {
    if commands == [] then []
    else if commands[0].legacy in [None, Some("")] then Aliases(commands[1..])
    else [Attempt(commands[0].legacy.value, true)] + Aliases(commands[1..])
  }

  function Attempts(commands: seq<Command>, kiloPresent: bool): seq<Attempt> {
    Primaries(commands) + if kiloPresent then [] else Aliases(commands)
  }

  /** What the host answers to the attempt when the ids in `taken` are held. */
  function Answer(id: string, taken: set<string>, fault: Option<Thrown>): Option<Thrown> {
    if id in taken then Some(Conflict(id)) else fault
  }

  datatype Outcome = Outcome(registered: seq<string>, error: Option<Thrown>)

  /** The ids obtained until the attempts end or one fails for good. */
  function Outcomes(attempts: seq<Attempt>, taken: set<string>, faults: nat -> Option<Thrown>, calls: nat): Outcome {
    if attempts == [] then Outcome([], None)
    else
      var id := attempts[0].id;
      match Answer(id, taken, faults(calls))
      case None => After([id], Outcomes(attempts[1..], taken + {id}, faults, calls + 1))
      case Some(e) =>
        if attempts[0].alias && e == Conflict(id) then Outcomes(attempts[1..], taken, faults, calls + 1)
        else Outcome([], Some(e))
  }

  function After(registered: seq<string>, rest: Outcome): Outcome {
    Outcome(registered + rest.registered, rest.error)
  }

  function Ids(registered: seq<string>): (ids: set<string>)
    ensures forall id :: id in ids <==> exists i :: 0 <= i < |registered| && registered[i] == id
  {
    set i | 0 <= i < |registered| :: registered[i]
  }

  function Claim(holders: map<string, nat>, ids: set<string>, group: nat): map<string, nat> {
    holders + map id | id in ids :: group
  }

  // ---------------------------------------------------------------- the host and the owner

  class Registry {
    const faults: nat -> Option<Thrown>
    var calls: nat
    var holders: map<string, nat>
    var freed: seq<string>

    constructor (faults: nat -> Option<Thrown>)
      ensures this.faults == faults && calls == 0 && holders == map[] && freed == []
    {
      this.faults := faults;
      calls := 0;
      holders := map[];
      freed := [];
    }

    method RegisterCommand(id: string, group: nat) returns (error: Option<Thrown>)
      modifies this`calls, this`holders
      ensures calls == old(calls) + 1
      ensures error == Answer(id, old(holders.Keys), faults(old(calls)))
      ensures holders == if error.None? then old(holders)[id := group] else old(holders)
    {
      error := if id in holders then Some(Conflict(id)) else faults(calls);
      calls := calls + 1;
      if error.None? {
        holders := holders[id := group];
      }
    }

    method Unregister(id: string)
      modifies this`holders, this`freed
      ensures holders == old(holders) - {id}
      ensures freed == old(freed) + [id]
    {
      holders := holders - {id};
      freed := freed + [id];
    }
  }

  function Reversed(ids: seq<string>): (r: seq<string>)
    ensures |r| == |ids|
    ensures forall i :: 0 <= i < |ids| ==> r[i] == ids[|ids| - 1 - i]
  {
    seq(|ids|, i requires 0 <= i < |ids| => ids[|ids| - 1 - i])
  }

  class Owner {
    const registry: Registry
    var registrations: seq<string>

    constructor (registry: Registry)
      ensures this.registry == registry && registrations == []
    {
      this.registry := registry;
      registrations := [];
    }

    method Dispose()
      modifies this, registry`holders, registry`freed
      ensures registrations == []
      ensures registry.freed == old(registry.freed) + Reversed(old(registrations))
      ensures registry.holders == old(registry.holders) - Ids(old(registrations))
    {
      var taken := registrations;
      registrations := [];
      var i := |taken|;
      while i > 0
        invariant 0 <= i <= |taken|
        invariant registrations == []
        invariant registry.holders == old(registry.holders) - Ids(taken[i..])
        invariant registry.freed == old(registry.freed) + Reversed(taken[i..])
      {
        i := i - 1;
        registry.Unregister(taken[i]);
        assert taken[i..] == [taken[i]] + taken[i + 1..];
        assert Reversed(taken[i..]) == Reversed(taken[i + 1..]) + [taken[i]];
        IdsPrepend(taken[i], taken[i + 1..]);
      }
      assert taken[0..] == taken;
    }
  }

  lemma IdsPrepend(id: string, ids: seq<string>)
    ensures Ids([id] + ids) == {id} + Ids(ids)
  {
    forall x | x in Ids(ids) ensures x in Ids([id] + ids) {
      var i :| 0 <= i < |ids| && ids[i] == x;
      assert ([id] + ids)[i + 1] == x;
    }
    assert ([id] + ids)[0] == id;
  }

  lemma IdsAppend(ids: seq<string>, id: string)
    ensures Ids(ids + [id]) == Ids(ids) + {id}
  {
    forall x | x in Ids(ids) ensures x in Ids(ids + [id]) {
      var i :| 0 <= i < |ids| && ids[i] == x;
      assert (ids + [id])[i] == x;
    }
    assert (ids + [id])[|ids|] == id;
  }

  // ---------------------------------------------------------------- registering a group

  /** The group's ids are held besides the earlier ones, and `rest` is still to be tried. */
  ghost predicate Underway(registry: Registry, owner: Owner, group: nat, before: map<string, nat>, rest: seq<Attempt>, run: Outcome)
    reads registry, owner
  {
    registry.holders == Claim(before, Ids(owner.registrations), group)
    && run == After(owner.registrations, Outcomes(rest, registry.holders.Keys, registry.faults, registry.calls))
  }

  /** One registration: its id is pushed on the owner's list unless the host throws. */
  method PushRegistration(registry: Registry, owner: Owner, group: nat, id: string,
                          ghost alias: bool, ghost rest: seq<Attempt>, ghost before: map<string, nat>, ghost run: Outcome)
    returns (error: Option<Thrown>)
    requires owner.registry == registry
    requires Underway(registry, owner, group, before, [Attempt(id, alias)] + rest, run)
    modifies registry`calls, registry`holders, owner
    ensures registry.holders == Claim(before, Ids(owner.registrations), group)
    ensures owner.registrations == old(owner.registrations) + if error.None? then [id] else []
    ensures if error.None? || (alias && error == Some(Conflict(id))) then Underway(registry, owner, group, before, rest, run)
            else run == Outcome(owner.registrations, error)
  {
    FirstAttempt(owner.registrations, Attempt(id, alias), rest, registry.holders.Keys, registry.faults, registry.calls);
    error := registry.RegisterCommand(id, group);
    if error.None? {
      ClaimOneMore(before, owner.registrations, id, group);
      owner.registrations := owner.registrations + [id];
    }
  }

  method RegisterPrimaries(registry: Registry, owner: Owner, group: nat, commands: seq<Command>,
                           ghost before: map<string, nat>, ghost aliases: seq<Attempt>, ghost run: Outcome)
    returns (error: Option<Thrown>)
    requires owner.registry == registry
    requires Underway(registry, owner, group, before, Primaries(commands) + aliases, run)
    modifies registry`calls, registry`holders, owner
    ensures registry.holders == Claim(before, Ids(owner.registrations), group)
    ensures error.None? ==> Underway(registry, owner, group, before, aliases, run)
    ensures error.Some? ==> run == Outcome(owner.registrations, error)
  {
    var i := 0;
    while i < |commands|
      invariant 0 <= i <= |commands|
      invariant Underway(registry, owner, group, before, Primaries(commands[i..]) + aliases, run)
    {
      DropDrop(commands, i, 1);
      FirstPrimary(commands[i..], aliases);
      error := PushRegistration(registry, owner, group, commands[i].id, false, Primaries(commands[i + 1..]) + aliases, before, run);
      if error.Some? {
        return;
      }
      i := i + 1;
    }
    assert Primaries(commands[|commands|..]) + aliases == aliases;
    return None;
  }

  method RegisterAliases(registry: Registry, owner: Owner, group: nat, commands: seq<Command>,
                         ghost before: map<string, nat>, ghost run: Outcome)
    returns (error: Option<Thrown>)
    requires owner.registry == registry
    requires Underway(registry, owner, group, before, Aliases(commands), run)
    modifies registry`calls, registry`holders, owner
    ensures registry.holders == Claim(before, Ids(owner.registrations), group)
    ensures run == Outcome(owner.registrations, error)
  {
    var i := 0;
    while i < |commands|
      invariant 0 <= i <= |commands|
      invariant Underway(registry, owner, group, before, Aliases(commands[i..]), run)
    {
      var legacy := commands[i].legacy;
      DropDrop(commands, i, 1);
      i := i + 1;
      if legacy.None? || legacy.value == "" {
        continue;
      }
      FirstAlias(commands[i - 1..]);
      error := PushRegistration(registry, owner, group, legacy.value, true, Aliases(commands[i..]), before, run);
      if error.Some? && error != Some(Conflict(legacy.value)) {
        return;
      }
    }
    return None;
  }

  method RegisterNamespacedCommands(registry: Registry, group: nat, commands: seq<Command>, kiloPresent: bool)
    returns (result: Result<Owner, Thrown>)
    modifies registry
    ensures var run := Outcomes(Attempts(commands, kiloPresent), old(registry.holders.Keys), registry.faults, old(registry.calls));
            match run.error
            case Some(e) =>
              result == Err(e) && registry.holders == old(registry.holders)
              && registry.freed == old(registry.freed) + Reversed(run.registered)
            case None =>
              result.Ok? && fresh(result.value) && registry.freed == old(registry.freed)
              && result.value.registry == registry && result.value.registrations == run.registered
              && registry.holders == Claim(old(registry.holders), Ids(run.registered), group)
  {
    var owner := new Owner(registry);
    ghost var before := registry.holders;
    ghost var aliases := if kiloPresent then [] else Aliases(commands);
    ghost var run := Outcomes(Attempts(commands, kiloPresent), before.Keys, registry.faults, registry.calls);
    FreshOnly(Attempts(commands, kiloPresent), before.Keys, registry.faults, registry.calls);
    Released(before, Ids(run.registered), group);
    NothingYet(before, run, group);
    var error := RegisterPrimaries(registry, owner, group, commands, before, aliases, run);
    if error.None? && !kiloPresent {
      error := RegisterAliases(registry, owner, group, commands, before, run);
    }
    if error.Some? {
      owner.Dispose();
      return Err(error.value);
    }
    assert owner.registrations + [] == owner.registrations;
    return Ok(owner);
  }

  lemma NothingYet(before: map<string, nat>, run: Outcome, group: nat)
    ensures Claim(before, Ids([]), group) == before && After([], run) == run
  {
    assert Ids([]) == {};
    assert [] + run.registered == run.registered;
  }

  lemma FirstPrimary(commands: seq<Command>, aliases: seq<Attempt>)
    requires commands != []
    ensures Primaries(commands) + aliases == [Attempt(commands[0].id, false)] + (Primaries(commands[1..]) + aliases)
  {
    Associates([Attempt(commands[0].id, false)], Primaries(commands[1..]), aliases);
  }

  lemma FirstAlias(commands: seq<Command>)
    requires commands != [] && commands[0].legacy !in [None, Some("")]
    ensures Aliases(commands) == [Attempt(commands[0].legacy.value, true)] + Aliases(commands[1..])
  {
  }

  function Continued(registered: seq<string>, attempt: Attempt, answer: Option<Thrown>, rest: seq<Attempt>, taken: set<string>,
                     faults: nat -> Option<Thrown>, calls: nat): Outcome {
    if answer.None? then After(registered + [attempt.id], Outcomes(rest, taken + {attempt.id}, faults, calls))
    else if attempt.alias && answer == Some(Conflict(attempt.id)) then After(registered, Outcomes(rest, taken, faults, calls))
    else Outcome(registered, answer)
  }

  /** What is still to come after an attempt, by the host's answer to it. */
  lemma FirstAttempt(registered: seq<string>, attempt: Attempt, rest: seq<Attempt>, taken: set<string>,
                     faults: nat -> Option<Thrown>, calls: nat)
    ensures After(registered, Outcomes([attempt] + rest, taken, faults, calls))
         == Continued(registered, attempt, Answer(attempt.id, taken, faults(calls)), rest, taken, faults, calls + 1)
  {
    var id := attempt.id;
    assert ([attempt] + rest)[1..] == rest;
    Associates(registered, [id], Outcomes(rest, taken + {id}, faults, calls + 1).registered);
    assert registered + [] == registered;
  }

  lemma ClaimOneMore(before: map<string, nat>, registered: seq<string>, id: string, group: nat)
    ensures Claim(before, Ids(registered), group)[id := group] == Claim(before, Ids(registered + [id]), group)
    ensures Claim(before, Ids(registered + [id]), group).Keys == Claim(before, Ids(registered), group).Keys + {id}
  {
    IdsAppend(registered, id);
    ClaimWith(before, Ids(registered), id, group);
  }

  lemma ClaimWith(before: map<string, nat>, ids: set<string>, id: string, group: nat)
    ensures Claim(before, ids, group)[id := group] == Claim(before, ids + {id}, group)
    ensures Claim(before, ids + {id}, group).Keys == Claim(before, ids, group).Keys + {id}
  {
  }

  /** Freeing ids that were free before undoes claiming them. */
  lemma Released(before: map<string, nat>, ids: set<string>, group: nat)
    requires ids !! before.Keys
    ensures Claim(before, ids, group) - ids == before
  {
  }

  // ---------------------------------------------------------------- which ids a group gets

  /** Whether some earlier attempt or an earlier holder has the id by attempt `k`. */
  predicate Occupied(attempts: seq<Attempt>, taken: set<string>, faults: nat -> Option<Thrown>, calls: nat, k: nat)
    requires k < |attempts|
  {
    attempts[k].id in taken || exists j :: 0 <= j < k && attempts[j].id == attempts[k].id && faults(calls + j).None?
  }

  /** Attempt `k` cannot be passed over. */
  predicate Fatal(attempts: seq<Attempt>, taken: set<string>, faults: nat -> Option<Thrown>, calls: nat, k: nat)
    requires k < |attempts|
  {
    if Occupied(attempts, taken, faults, calls, k) then !attempts[k].alias
    else faults(calls + k).Some? && (attempts[k].alias ==> faults(calls + k) != Some(Conflict(attempts[k].id)))
  }

  /** The first attempt takes its id out of reach of the later ones, or leaves things as they were. */
  lemma OccupiedLater(attempts: seq<Attempt>, taken: set<string>, faults: nat -> Option<Thrown>, calls: nat, k: nat)
    requires 0 < k < |attempts|
    ensures var next := if faults(calls).None? then taken + {attempts[0].id} else taken;
            Occupied(attempts, taken, faults, calls, k) <==> Occupied(attempts[1..], next, faults, calls + 1, k - 1)
  {
    var next := if faults(calls).None? then taken + {attempts[0].id} else taken;
    var rest := attempts[1..];
    if Occupied(attempts, taken, faults, calls, k) && attempts[k].id !in taken {
      var j :| 0 <= j < k && attempts[j].id == attempts[k].id && faults(calls + j).None?;
      if j > 0 {
        assert rest[j - 1].id == rest[k - 1].id && faults(calls + 1 + (j - 1)).None?;
      }
    }
    if Occupied(rest, next, faults, calls + 1, k - 1) && rest[k - 1].id !in next {
      var j :| 0 <= j < k - 1 && rest[j].id == rest[k - 1].id && faults(calls + 1 + j).None?;
      assert attempts[j + 1].id == attempts[k].id && faults(calls + (j + 1)).None?;
    }
  }

  lemma FatalLater(attempts: seq<Attempt>, taken: set<string>, faults: nat -> Option<Thrown>, calls: nat, k: nat)
    requires 0 < k < |attempts|
    ensures var next := if faults(calls).None? then taken + {attempts[0].id} else taken;
            Fatal(attempts, taken, faults, calls, k) <==> Fatal(attempts[1..], next, faults, calls + 1, k - 1)
  {
    OccupiedLater(attempts, taken, faults, calls, k);
    assert calls + 1 + (k - 1) == calls + k;
  }

  lemma Passed(attempts: seq<Attempt>, taken: set<string>, faults: nat -> Option<Thrown>, calls: nat)
    requires attempts != [] && !Fatal(attempts, taken, faults, calls, 0)
    ensures var next := if faults(calls).None? then taken + {attempts[0].id} else taken;
            Outcomes(attempts, taken, faults, calls).error == Outcomes(attempts[1..], next, faults, calls + 1).error
  {
    if attempts[0].id in taken {
      assert taken + {attempts[0].id} == taken;
    }
  }

  /** A first fatal attempt makes the call throw what the host answered to it. */
  lemma {:induction false} FirstFatalIsThrown(attempts: seq<Attempt>, taken: set<string>, faults: nat -> Option<Thrown>, calls: nat, k: nat)
    requires k < |attempts| && Fatal(attempts, taken, faults, calls, k)
    requires forall j :: 0 <= j < k ==> !Fatal(attempts, taken, faults, calls, j)
    ensures Outcomes(attempts, taken, faults, calls).error
         == if Occupied(attempts, taken, faults, calls, k) then Some(Conflict(attempts[k].id)) else faults(calls + k)
  {
    if k > 0 {
      var next := if faults(calls).None? then taken + {attempts[0].id} else taken;
      Passed(attempts, taken, faults, calls);
      OccupiedLater(attempts, taken, faults, calls, k);
      var rest, n := attempts[1..], calls + 1;
      forall j | 0 <= j < k ensures Fatal(rest, next, faults, n, j) <==> j == k - 1 {
        FatalLater(attempts, taken, faults, calls, j + 1);
      }
      FirstFatalIsThrown(rest, next, faults, n, k - 1);
      assert calls + 1 + (k - 1) == calls + k;
    }
  }

  lemma {:induction false} PassedOver(attempts: seq<Attempt>, taken: set<string>, faults: nat -> Option<Thrown>, calls: nat)
    requires forall k :: 0 <= k < |attempts| ==> !Fatal(attempts, taken, faults, calls, k)
    ensures Outcomes(attempts, taken, faults, calls).error.None?
  {
    if attempts != [] {
      var next := if faults(calls).None? then taken + {attempts[0].id} else taken;
      Passed(attempts, taken, faults, calls);
      var rest, n := attempts[1..], calls + 1;
      forall k | 0 <= k < |rest| ensures !Fatal(rest, next, faults, n, k) {
        FatalLater(attempts, taken, faults, calls, k + 1);
      }
      PassedOver(rest, next, faults, n);
    }
  }

  lemma {:induction false} LeastFatal(attempts: seq<Attempt>, taken: set<string>, faults: nat -> Option<Thrown>, calls: nat, k: nat)
    returns (m: nat)
    requires k < |attempts| && Fatal(attempts, taken, faults, calls, k)
    ensures m <= k && Fatal(attempts, taken, faults, calls, m)
    ensures forall j :: 0 <= j < m ==> !Fatal(attempts, taken, faults, calls, j)
  {
    m := k;
    if j :| 0 <= j < k && Fatal(attempts, taken, faults, calls, j) {
      m := LeastFatal(attempts, taken, faults, calls, j);
    }
  }

  /** Registering throws exactly when some attempt is fatal. */
  lemma ThrowsExactlyWhen(attempts: seq<Attempt>, taken: set<string>, faults: nat -> Option<Thrown>, calls: nat)
    ensures Outcomes(attempts, taken, faults, calls).error.Some?
       <==> exists k :: 0 <= k < |attempts| && Fatal(attempts, taken, faults, calls, k)
  {
    if k :| 0 <= k < |attempts| && Fatal(attempts, taken, faults, calls, k) {
      var m := LeastFatal(attempts, taken, faults, calls, k);
      FirstFatalIsThrown(attempts, taken, faults, calls, m);
    } else {
      PassedOver(attempts, taken, faults, calls);
    }
  }

  /** On return the group holds exactly the ids it tried that nobody held and the host did not refuse. */
  lemma {:induction false} HoldsExactly(attempts: seq<Attempt>, taken: set<string>, faults: nat -> Option<Thrown>, calls: nat, id: string)
    requires Outcomes(attempts, taken, faults, calls).error.None?
    ensures id in Ids(Outcomes(attempts, taken, faults, calls).registered)
       <==> id !in taken && exists k :: 0 <= k < |attempts| && attempts[k].id == id && faults(calls + k).None?
  {
    if attempts != [] {
      var first := attempts[0];
      var rest := attempts[1..];
      var next := if Answer(first.id, taken, faults(calls)).None? then taken + {first.id} else taken;
      var got := Outcomes(rest, next, faults, calls + 1).registered;
      IdsPrepend(first.id, got);
      HoldsExactly(rest, next, faults, calls + 1, id);
      HeadOrLater(attempts, faults, calls, id);
    }
  }

  lemma HeadOrLater(attempts: seq<Attempt>, faults: nat -> Option<Thrown>, calls: nat, id: string)
    requires attempts != []
    ensures (exists k :: 0 <= k < |attempts| && attempts[k].id == id && faults(calls + k).None?)
       <==> (attempts[0].id == id && faults(calls).None?)
            || exists k :: 0 <= k < |attempts[1..]| && attempts[1..][k].id == id && faults(calls + 1 + k).None?
  {
    forall k | 0 <= k < |attempts[1..]| ensures attempts[1..][k] == attempts[k + 1] && calls + 1 + k == calls + (k + 1) {
    }
    if k :| 0 < k < |attempts| && attempts[k].id == id && faults(calls + k).None? {
      assert attempts[1..][k - 1].id == id && faults(calls + 1 + (k - 1)).None?;
    }
  }

  /** Every command's own id is among them. */
  lemma {:induction false} HoldsEveryPrimary(attempts: seq<Attempt>, taken: set<string>, faults: nat -> Option<Thrown>, calls: nat, k: nat)
    requires Outcomes(attempts, taken, faults, calls).error.None?
    requires k < |attempts| && !attempts[k].alias
    ensures attempts[k].id in Ids(Outcomes(attempts, taken, faults, calls).registered)
  {
    var id := attempts[0].id;
    var next := if Answer(id, taken, faults(calls)).None? then taken + {id} else taken;
    IdsPrepend(id, Outcomes(attempts[1..], next, faults, calls + 1).registered);
    if k > 0 {
      HoldsEveryPrimary(attempts[1..], next, faults, calls + 1, k - 1);
    }
  }

  /** A group never takes an id that is held, so no holder loses one. */
  lemma {:induction false} FreshOnly(attempts: seq<Attempt>, taken: set<string>, faults: nat -> Option<Thrown>, calls: nat)
    ensures Ids(Outcomes(attempts, taken, faults, calls).registered) !! taken
  {
    if attempts != [] {
      var id := attempts[0].id;
      FreshOnly(attempts[1..], taken, faults, calls + 1);
      FreshOnly(attempts[1..], taken + {id}, faults, calls + 1);
      IdsPrepend(id, Outcomes(attempts[1..], taken + {id}, faults, calls + 1).registered);
    }
  }

  // ---------------------------------------------------------------- which ids, told by the commands

  predicate HasAlias(command: Command) {
    command.legacy.Some? && command.legacy.value != ""
  }

  /** How many of the first `k` commands have an alias, so how many calls come before that of command `k`. */
  function AliasesBefore(commands: seq<Command>, k: nat): nat
    requires k <= |commands|
  {
    if k == 0 then 0 else AliasesBefore(commands, k - 1) + if HasAlias(commands[k - 1]) then 1 else 0
  }

  /** Some command has the id for its own. */
  predicate IsOwn(commands: seq<Command>, id: string) {
    exists k :: 0 <= k < |commands| && commands[k].id == id
  }

  /** Some command has the id for its alias, and the host does not refuse it by a reason of its own. */
  predicate IsWelcomeAlias(commands: seq<Command>, faults: nat -> Option<Thrown>, calls: nat, id: string) {
    exists k :: 0 <= k < |commands| && HasAlias(commands[k]) && commands[k].legacy.value == id
      && faults(calls + |commands| + AliasesBefore(commands, k)).None?
  }

  /**
   * On return the group holds the commands' own ids and, unless Kilo is present, every
   * alias that was free and not refused; and nothing else.
   */
  lemma HoldsOwnIdsAndAliases(commands: seq<Command>, kiloPresent: bool, taken: set<string>, faults: nat -> Option<Thrown>, calls: nat, id: string)
    requires Outcomes(Attempts(commands, kiloPresent), taken, faults, calls).error.None?
    ensures id in Ids(Outcomes(Attempts(commands, kiloPresent), taken, faults, calls).registered)
       <==> IsOwn(commands, id) || (!kiloPresent && id !in taken && IsWelcomeAlias(commands, faults, calls, id))
  {
    var attempts := Attempts(commands, kiloPresent);
    HoldsExactly(attempts, taken, faults, calls, id);
    PrimariesAre(commands);
    if k :| 0 <= k < |commands| && commands[k].id == id {
      HoldsEveryPrimary(attempts, taken, faults, calls, k);
    }
    if !kiloPresent && IsWelcomeAlias(commands, faults, calls, id) {
      var k := WelcomeIsTried(commands, faults, calls, id);
    }
    if k :| 0 <= k < |attempts| && attempts[k].id == id && faults(calls + k).None? {
      TriedIsOwnOrWelcome(commands, kiloPresent, faults, calls, k);
    }
  }

  lemma WelcomeIsTried(commands: seq<Command>, faults: nat -> Option<Thrown>, calls: nat, id: string) returns (n: nat)
    requires IsWelcomeAlias(commands, faults, calls, id)
    ensures var attempts := Attempts(commands, false);
      n < |attempts| && attempts[n].id == id && faults(calls + n).None?
  {
    var k :| 0 <= k < |commands| && HasAlias(commands[k]) && commands[k].legacy.value == id
      && faults(calls + |commands| + AliasesBefore(commands, k)).None?;
    n := |commands| + AliasesBefore(commands, k);
    PrimariesAre(commands);
    AliasesAre(commands);
  }

  lemma TriedIsOwnOrWelcome(commands: seq<Command>, kiloPresent: bool, faults: nat -> Option<Thrown>, calls: nat, n: nat)
    requires n < |Attempts(commands, kiloPresent)| && faults(calls + n).None?
    ensures var id := Attempts(commands, kiloPresent)[n].id;
      IsOwn(commands, id) || (!kiloPresent && IsWelcomeAlias(commands, faults, calls, id))
  {
    PrimariesAre(commands);
    if n < |commands| {
      assert commands[n].id == Primaries(commands)[n].id;
    } else {
      var k := AliasOf(commands, n - |commands|);
      assert calls + |commands| + AliasesBefore(commands, k) == calls + n;
    }
  }

  /** An alias is passed over for one error only, the one with this message; any other is thrown. */
  lemma OneErrorIsPassedOver(id: string, rest: seq<Attempt>, taken: set<string>, faults: nat -> Option<Thrown>, calls: nat, e: Thrown)
    requires if id in taken then e == AnError("command '" + id + "' already exists") else faults(calls) == Some(e)
    ensures Outcomes([Attempt(id, true)] + rest, taken, faults, calls)
         == if e == AnError("command '" + id + "' already exists") then Outcomes(rest, taken, faults, calls + 1) else Outcome([], Some(e))
  {
    assert ([Attempt(id, true)] + rest)[1..] == rest;
  }

  lemma {:induction false} PrimariesAre(commands: seq<Command>)
    ensures |Primaries(commands)| == |commands|
    ensures forall k :: 0 <= k < |commands| ==> Primaries(commands)[k] == Attempt(commands[k].id, false)
  {
    if commands != [] { PrimariesAre(commands[1..]); }
  }

  lemma {:induction false} BeforeStep(commands: seq<Command>, k: nat)
    requires 0 < k <= |commands|
    ensures AliasesBefore(commands, k) == (if HasAlias(commands[0]) then 1 else 0) + AliasesBefore(commands[1..], k - 1)
  {
    if k > 1 { BeforeStep(commands, k - 1); }
  }

  lemma {:induction false} AliasesAre(commands: seq<Command>)
    ensures |Aliases(commands)| == AliasesBefore(commands, |commands|)
    ensures forall k :: 0 <= k < |commands| && HasAlias(commands[k]) ==>
      AliasesBefore(commands, k) < |Aliases(commands)| && Aliases(commands)[AliasesBefore(commands, k)] == Attempt(commands[k].legacy.value, true)
  {
    if commands != [] {
      AliasesAre(commands[1..]);
      forall k | 0 < k <= |commands|
        ensures AliasesBefore(commands, k) == (if HasAlias(commands[0]) then 1 else 0) + AliasesBefore(commands[1..], k - 1)
      {
        BeforeStep(commands, k);
      }
      forall k | 0 < k < |commands| && HasAlias(commands[k])
        ensures AliasesBefore(commands, k) < |Aliases(commands)|
        ensures Aliases(commands)[AliasesBefore(commands, k)] == Attempt(commands[k].legacy.value, true)
      {
        assert HasAlias(commands[1..][k - 1]);
      }
    }
  }

  /** The command whose alias is tried in place `n`. */
  lemma {:induction false} AliasOf(commands: seq<Command>, n: nat) returns (k: nat)
    requires n < |Aliases(commands)|
    ensures k < |commands| && HasAlias(commands[k]) && AliasesBefore(commands, k) == n
    ensures Aliases(commands)[n] == Attempt(commands[k].legacy.value, true)
  {
    if !HasAlias(commands[0]) {
      k := AliasOf(commands[1..], n);
      BeforeStep(commands, k + 1);
      k := k + 1;
    } else if n == 0 {
      k := 0;
    } else {
      k := AliasOf(commands[1..], n - 1);
      BeforeStep(commands, k + 1);
      k := k + 1;
    }
  }

  /** The same commands without their aliases. */
  function WithoutAliases(commands: seq<Command>): (bare: seq<Command>)
    ensures |bare| == |commands| && forall k :: 0 <= k < |commands| ==> bare[k] == Command(commands[k].id, None)
  {
    seq(|commands|, k requires 0 <= k < |commands| => Command(commands[k].id, None))
  }

  /** Beside Kilo nothing is asked of the host that would not be asked if there were no aliases at all. */
  lemma KiloMeansNoAlias(commands: seq<Command>, kiloPresent: bool, taken: set<string>, faults: nat -> Option<Thrown>, calls: nat)
    ensures Outcomes(Attempts(commands, true), taken, faults, calls)
         == Outcomes(Attempts(WithoutAliases(commands), kiloPresent), taken, faults, calls)
  {
    var bare := WithoutAliases(commands);
    PrimariesAre(commands);
    PrimariesAre(bare);
    assert Primaries(bare) == Primaries(commands);
    NoAliases(bare);
  }

  lemma {:induction false} NoAliases(commands: seq<Command>)
    requires forall k :: 0 <= k < |commands| ==> commands[k].legacy == None
    ensures Aliases(commands) == []
  {
    if commands != [] { NoAliases(commands[1..]); }
  }

  // ---------------------------------------------------------------- runs

  /**
   * The host with every caller that ever registered: its group number and the
   * ids its owner has still to undo.
   */
  datatype World = World(holders: map<string, nat>, live: map<nat, seq<string>>)

  datatype Event =
    | Register(group: nat, commands: seq<Command>, kiloPresent: bool, faults: nat -> Option<Thrown>)
    | DisposeOwner(group: nat)

  /** A group is numbered once; only an owner that was returned can be disposed. */
  predicate Enabled(w: World, e: Event) {
    if e.Register? then e.group !in w.live else e.group in w.live
  }

  function Apply(w: World, e: Event): World
    requires Enabled(w, e)
  {
    match e
    case Register(group, commands, kiloPresent, faults) =>
      var run := Outcomes(Attempts(commands, kiloPresent), w.holders.Keys, faults, 0);
      if run.error.Some? then w
      else World(Claim(w.holders, Ids(run.registered), group), w.live[group := run.registered])
    case DisposeOwner(group) => World(w.holders - Ids(w.live[group]), w.live[group := []])
  }

  predicate Possible(w: World, events: seq<Event>)
    decreases |events|
  {
    events == [] || (Enabled(w, events[0]) && Possible(Apply(w, events[0]), events[1..]))
  }

  function Final(w: World, events: seq<Event>): World
    requires Possible(w, events)
    decreases |events|
  {
    if events == [] then w else Final(Apply(w, events[0]), events[1..])
  }

  /** An id is held by a group exactly when the group's owner has it still to undo. */
  ghost predicate Settled(w: World) {
    (forall id :: id in w.holders ==> w.holders[id] in w.live && id in Ids(w.live[w.holders[id]]))
    && forall g, id :: g in w.live && id in Ids(w.live[g]) ==> id in w.holders && w.holders[id] == g
  }

  lemma EveryEventKeepsSettled(w: World, e: Event)
    requires Settled(w) && Enabled(w, e)
    ensures Settled(Apply(w, e))
  {
    if e.Register? {
      var run := Outcomes(Attempts(e.commands, e.kiloPresent), w.holders.Keys, e.faults, 0);
      FreshOnly(Attempts(e.commands, e.kiloPresent), w.holders.Keys, e.faults, 0);
      ClaimKeepsSettled(w, e.group, run.registered);
    } else {
      var next := Apply(w, e);
      forall g, id | g in next.live && id in Ids(next.live[g]) ensures id in next.holders && next.holders[id] == g {
        assert g != e.group && id in Ids(w.live[g]);
        assert w.holders[id] == g && id !in Ids(w.live[e.group]);
      }
    }
  }

  lemma ClaimKeepsSettled(w: World, group: nat, registered: seq<string>)
    requires Settled(w) && group !in w.live && Ids(registered) !! w.holders.Keys
    ensures Settled(World(Claim(w.holders, Ids(registered), group), w.live[group := registered]))
  {
  }

  lemma {:induction false} RunsKeepSettled(w: World, events: seq<Event>)
    requires Settled(w) && Possible(w, events)
    ensures Settled(Final(w, events))
    decreases |events|
  {
    if events != [] {
      EveryEventKeepsSettled(w, events[0]);
      RunsKeepSettled(Apply(w, events[0]), events[1..]);
    }
  }

  /** After any run, disposing removes exactly what the group holds and nobody else's entry. */
  lemma DisposeRemovesExactly(events: seq<Event>, group: nat)
    requires Possible(World(map[], map[]), events)
    requires group in Final(World(map[], map[]), events).live
    ensures var w := Final(World(map[], map[]), events);
            Apply(w, DisposeOwner(group)).holders == map id | id in w.holders && w.holders[id] != group :: w.holders[id]
  {
    RunsKeepSettled(World(map[], map[]), events);
  }

  /** Whatever others register in between, disposing again changes nothing at all. */
  lemma {:induction false} SecondDisposeChangesNothing(w: World, group: nat, between: seq<Event>)
    requires group in w.live && w.live[group] == []
    requires Possible(w, between)
    ensures Enabled(Final(w, between), DisposeOwner(group))
    ensures Apply(Final(w, between), DisposeOwner(group)) == Final(w, between)
    decreases |between|
  {
    if between != [] {
      SecondDisposeChangesNothing(Apply(w, between[0]), group, between[1..]);
    }
  }

  /** A group that throws, or that is disposed at once, leaves the world's holders as they were. */
  lemma RegisterThenDispose(w: World, e: Event)
    requires Settled(w) && e.Register? && Enabled(w, e)
    ensures e.group !in Apply(w, e).live ==> Apply(w, e) == w
    ensures e.group in Apply(w, e).live ==> Apply(Apply(w, e), DisposeOwner(e.group)).holders == w.holders
  {
    FreshOnly(Attempts(e.commands, e.kiloPresent), w.holders.Keys, e.faults, 0);
  }
}
