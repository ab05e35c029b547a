/**
 * The controller's rules as functions of values: the staminas of the
 * registered players (by position in the player list) and the supply list.
 * The Controller class in module Game is proved to follow these functions.
 *
 * Every stamina write goes through the setter's range check, so the functions
 * are total: for staminas outside [0, 100] they do what the source would do,
 * and the contracts say what happens when every stamina is in range.
 */
module Rules {
  import opened Outcomes
  import opened Entities

  /** What `sustain` returns: one shape per message, `NoReply` for `None`. */
  datatype SustainResult =
    | NoSupplies(kind: Kind)
    | HasEnough(player: string)
    | Sustained(player: string, supply: string)
    | NoReply
    | SustainError(error: Error)

  /** What `duel` returns: one shape per message, `NoWinner` for `None`. */
  datatype DuelResult =
    | Winner(player: string)
    | NoWinner
    | LackStamina(players: seq<string>)
    | DuelError(error: Error)

  /** The staminas of the players, in list order, and the supply list. */
  datatype State = State(stamina: seq<real>, supplies: seq<Supply>)

  datatype SustainStep = SustainStep(result: SustainResult, after: State)

  datatype DuelStep = DuelStep(result: DuelResult, stamina: seq<real>)

  predicate AllInRange(st: seq<real>) {
    forall k :: 0 <= k < |st| ==> InRange(st[k])
  }

  predicate AllValid(sup: seq<Supply>) {
    forall k :: 0 <= k < |sup| ==> sup[k].Valid()
  }

  predicate Distinct<T(==)>(s: seq<T>) {
    forall i, j :: 0 <= i < j < |s| ==> s[i] != s[j]
  }

  function Names(ps: seq<Player>): (r: seq<string>)
    ensures |r| == |ps| && forall k :: 0 <= k < |ps| ==> r[k] == ps[k].name
  {
    seq(|ps|, k requires 0 <= k < |ps| => ps[k].name)
  }

  /** Appending a player appends its name. */
  lemma NamesAppend(ps: seq<Player>, p: Player)
    ensures Names(ps + [p]) == Names(ps) + [p.name]
  {
    assert forall k :: 0 <= k < |ps| ==> (ps + [p])[k] == ps[k];
  }

  /** Appending an element not yet listed keeps a list free of repeats. */
  lemma DistinctAppend<T>(s: seq<T>, x: T)
    requires Distinct(s) && x !in s
    ensures Distinct(s + [x])
  {
  }

  // ---------------------------------------------------------------- lookups

  /** `[x for x in players if x.name == name][0]`, as an index; None where the source raises IndexError. */
  function FindPlayer(ps: seq<Player>, name: string): (r: Option<nat>)
    ensures r.Some? ==> r.value < |ps| && ps[r.value].name == name
    ensures r.Some? ==> forall k :: 0 <= k < r.value ==> ps[k].name != name
    ensures r.None? <==> forall k :: 0 <= k < |ps| ==> ps[k].name != name
  {
    if ps == [] then None
    else if ps[0].name == name then Some(0)
    else match FindPlayer(ps[1..], name)
      case None => None
      case Some(k) => Some(k + 1)
  }

  /** The supply kind a `sustenance_type` string selects, if any. */
  function KindNamed(req: string): (r: Option<Kind>)
    ensures r.Some? <==> req == "Food" || req == "Drink"
    ensures r.Some? ==> KindName(r.value) == req
  {
    if req == "Food" then Some(Food)
    else if req == "Drink" then Some(Drink)
    else None
  }

  /** `any(x for x in supplies if x.type == kind)` */
  predicate HasKind(sup: seq<Supply>, k: Kind): (r: bool)
    // some listed supply, wherever it sits, is of the kind
    ensures r <==> exists s :: s in sup && s.kind == k
    ensures r ==> |sup| > 0
  {
    exists x :: 0 <= x < |sup| && sup[x].kind == k
  }

  /** `[x for x in supplies if x.type == kind][-1]`, as an index. */
  function LastOfKind(sup: seq<Supply>, k: Kind): (r: Option<nat>)
    ensures r.Some? ==> r.value < |sup| && sup[r.value].kind == k
    ensures r.Some? ==> forall x :: r.value < x < |sup| ==> sup[x].kind != k
    ensures r.None? <==> !HasKind(sup, k)
  {
    if sup == [] then None
    else if sup[|sup| - 1].kind == k then Some(|sup| - 1)
    else LastOfKind(sup[..|sup| - 1], k)
  }

  /** The position `list.remove` deletes: the first entry that is the very same object. */
  function FirstIndex(sup: seq<Supply>, s: Supply): (r: nat)
    requires s in sup
    ensures r < |sup| && sup[r] == s
    ensures forall x :: 0 <= x < r ==> sup[x] != s
  {
    if sup[0] == s then 0 else 1 + FirstIndex(sup[1..], s)
  }

  /** `supplies.remove(s)`: every other entry stays, in order. */
  function RemoveFirst(sup: seq<Supply>, s: Supply): (r: seq<Supply>)
    requires s in sup
    ensures |r| == |sup| - 1
    ensures multiset(r) == multiset(sup) - multiset{s}
    ensures AllValid(sup) ==> AllValid(r)
  {
    var f := FirstIndex(sup, s);
    assert sup == sup[..f] + [s] + sup[f + 1..];
    sup[..f] + sup[f + 1..]
  }

  // ---------------------------------------------------------------- sustain

  /** `stamina += energy`, and on the setter's ValueError `stamina = 100`. */
  function Refill(stamina: real, energy: real): (r: real)
    // from a valid stamina a valid supply raises it by its energy, but never past the maximum
    ensures InRange(stamina) && energy >= 0.0 ==> InRange(r) && stamina <= r
    ensures InRange(stamina) && energy >= 0.0 ==> (r == stamina + energy <==> stamina + energy <= MaxStamina)
    ensures r != stamina + energy ==> r == MaxStamina
  {
    if InRange(stamina + energy) then stamina + energy else MaxStamina
  }

  /** `Controller.sustain(who, req)` */
  function Sustain(ps: seq<Player>, st: seq<real>, sup: seq<Supply>, who: string, req: string): (r: SustainStep)
    requires |st| == |ps|
    ensures |r.after.stamina| == |st|
    // every path but the successful one changes nothing
    ensures !r.result.Sustained? ==> r.after == State(st, sup)
    ensures r.result == NoReply <==> KindNamed(req).None?
    ensures r.result.NoSupplies? <==> KindNamed(req).Some? && !HasKind(sup, KindNamed(req).value)
    ensures r.result.NoSupplies? ==> KindName(r.result.kind) == req
    ensures r.result.SustainError? ==>
      KindNamed(req).Some? && HasKind(sup, KindNamed(req).value) && FindPlayer(ps, who).None?
    // a supply is consumed exactly when one of the kind exists and the player is below full stamina
    ensures r.result.Sustained? <==>
      KindNamed(req).Some? && HasKind(sup, KindNamed(req).value) &&
      FindPlayer(ps, who).Some? && st[FindPlayer(ps, who).value] < MaxStamina
    ensures multiset(r.after.supplies) <= multiset(sup)
    ensures AllInRange(st) && AllValid(sup) ==> AllInRange(r.after.stamina) && AllValid(r.after.supplies)
  {
    match KindNamed(req)
    case None => SustainStep(NoReply, State(st, sup))
    case Some(k) =>
      if !HasKind(sup, k) then
        SustainStep(NoSupplies(k), State(st, sup))
      else
        var s := sup[LastOfKind(sup, k).value];
        match FindPlayer(ps, who)
        case None => SustainStep(SustainError(NoSuchPlayer(who)), State(st, sup))
        case Some(i) =>
          if st[i] >= MaxStamina then
            SustainStep(HasEnough(who), State(st, sup))
          else
            // the supply taken passed its setters' checks when every listed one did
            assert AllValid(sup) ==> s.Valid();
            SustainStep(Sustained(who, s.name), State(st[i := Refill(st[i], s.energy)], RemoveFirst(sup, s)))
  }

  // ---------------------------------------------------------------- duel

  /**
   * The exchange when the player at `lo` starts with strictly less stamina
   * than the player at `hi` (called `loName`): the higher stamina loses half
   * the lower, then the lower loses half the higher's new value. The setter
   * raises instead of storing a negative value, so the second step can fail
   * after the first has been written.
   */
  function Exchange(st: seq<real>, lo: nat, hi: nat, loName: string): (r: DuelStep)
    requires lo < |st| && hi < |st| && 0.0 < st[lo] < st[hi]
    ensures |r.stamina| == |st|
    ensures r.result == Winner(loName) || r.result == DuelError(StaminaOutOfRange)
    ensures forall k :: 0 <= k < |st| && k != lo && k != hi ==> r.stamina[k] == st[k]
    ensures r.result.Winner? ==> r.stamina[lo] == st[lo] - r.stamina[hi] / 2.0
    ensures r.result.DuelError? ==> r.stamina[lo] == st[lo]
    ensures InRange(st[hi]) ==> r.stamina[hi] == st[hi] - st[lo] / 2.0
    ensures InRange(st[hi]) ==> (r.result.Winner? <==> st[hi] <= 5.0 * st[lo] / 2.0)
    ensures AllInRange(st) ==> AllInRange(r.stamina)
  {
    var hiAfter := st[hi] - st[lo] / 2.0;
    if !InRange(hiAfter) then
      DuelStep(DuelError(StaminaOutOfRange), st)
    else
      var loAfter := st[lo] - hiAfter / 2.0;
      if !InRange(loAfter) then
        DuelStep(DuelError(StaminaOutOfRange), st[hi := hiAfter])
      else
        DuelStep(Winner(loName), st[hi := hiAfter][lo := loAfter])
  }

  /** An exchange whose first step stays in range, told by the staminas after each step. */
  lemma ExchangeSteps(st: seq<real>, lo: nat, hi: nat, loName: string, mid: seq<real>, fin: seq<real>, second: bool)
    requires lo < |st| && hi < |st| && 0.0 < st[lo] < st[hi]
    requires mid == st[hi := st[hi] - st[lo] / 2.0] && InRange(mid[hi])
    requires second <==> InRange(mid[lo] - mid[hi] / 2.0)
    requires fin == if second then mid[lo := mid[lo] - mid[hi] / 2.0] else mid
    ensures Exchange(st, lo, hi, loName) == DuelStep(if second then Winner(loName) else DuelError(StaminaOutOfRange), fin)
  {
  }

  /** `Controller.duel(a, b)` */
  function Duel(ps: seq<Player>, st: seq<real>, a: string, b: string): (r: DuelStep)
    requires |st| == |ps|
    ensures |r.stamina| == |st|
    ensures FindPlayer(ps, a).None? ==> r == DuelStep(DuelError(NoSuchPlayer(a)), st)
    ensures FindPlayer(ps, a).Some? && FindPlayer(ps, b).None? ==> r == DuelStep(DuelError(NoSuchPlayer(b)), st)
    ensures FindPlayer(ps, a).Some? && FindPlayer(ps, b).Some? ==>
      var i, j := FindPlayer(ps, a).value, FindPlayer(ps, b).value;
      // only the two duellists' staminas can move
      && (forall k :: 0 <= k < |st| && k != i && k != j ==> r.stamina[k] == st[k])
      // a player without stamina stops the duel: nothing moves, and each such player is named, in argument order
      && (st[i] == 0.0 || st[j] == 0.0 ==>
            r == DuelStep(LackStamina((if st[i] == 0.0 then [a] else []) + (if st[j] == 0.0 then [b] else [])), st))
      // equal positive staminas match no branch
      && (0.0 < st[i] == st[j] ==> r == DuelStep(NoWinner, st))
      // the player who started lower is always the one named winner
      && (r.result.Winner? ==> 0.0 < st[i] && 0.0 < st[j] && st[i] != st[j] &&
                               r.result.player == if st[i] < st[j] then a else b)
      && (0.0 < st[i] < st[j] ==> r == Exchange(st, i, j, a))
      && (0.0 < st[j] < st[i] ==> r == Exchange(st, j, i, b))
    ensures AllInRange(st) ==> AllInRange(r.stamina)
  {
    match FindPlayer(ps, a)
    case None => DuelStep(DuelError(NoSuchPlayer(a)), st)
    case Some(i) =>
      match FindPlayer(ps, b)
      case None => DuelStep(DuelError(NoSuchPlayer(b)), st)
      case Some(j) =>
        if st[i] > 0.0 && st[j] > 0.0 then
          if st[i] < st[j] then Exchange(st, i, j, a)
          else if st[j] < st[i] then Exchange(st, j, i, b)
          else DuelStep(NoWinner, st)
        else if st[i] == 0.0 && st[j] == 0.0 then assert [a] + [b] == [a, b]; DuelStep(LackStamina([a, b]), st)
        else if st[i] == 0.0 then assert [a] + [] == [a]; DuelStep(LackStamina([a]), st)
        else if st[j] == 0.0 then assert [] + [b] == [b]; DuelStep(LackStamina([b]), st)
        else DuelStep(NoWinner, st)
  }

  // ---------------------------------------------------------------- next day

  /**
   * `stamina -= int(age * 2)`; when the setter raises, the handler's clamp
   * tests the stamina the setter left in place.
   */
  function Decayed(stamina: real, age: int): (r: real)
    // in range, the decay applies exactly when it keeps the stamina non-negative, and the clamp never fires
    ensures InRange(stamina) && age >= 0 ==> InRange(r)
    ensures InRange(stamina) && age >= 0 && stamina >= (2 * age) as real ==> r == stamina - (2 * age) as real
    ensures InRange(stamina) && age >= 0 && stamina < (2 * age) as real ==> r == stamina
  {
    var lowered := stamina - (2 * age) as real;
    if InRange(lowered) then lowered
    else if stamina < 0.0 then 0.0
    else stamina
  }

  /** The first loop of `next_day`. */
  function Decay(ps: seq<Player>, st: seq<real>): (r: seq<real>)
    requires |st| == |ps|
    ensures |r| == |st|
    ensures forall k :: 0 <= k < |st| ==> r[k] == Decayed(st[k], ps[k].age)
  {
    seq(|st|, k requires 0 <= k < |st| => Decayed(st[k], ps[k].age))
  }

  /** One turn of the second loop of `next_day`: `sustain(name, "Food")`, then `sustain(name, "Drink")`. */
  function FeedOne(ps: seq<Player>, s: State, name: string): (r: State)
    requires |s.stamina| == |ps|
    ensures |r.stamina| == |s.stamina|
    ensures multiset(r.supplies) <= multiset(s.supplies)
    ensures AllInRange(s.stamina) && AllValid(s.supplies) ==> AllInRange(r.stamina) && AllValid(r.supplies)
    ensures s.supplies == [] ==> r == s
  {
    var fed := Sustain(ps, s.stamina, s.supplies, name, "Food");
    var drunk := Sustain(ps, fed.after.stamina, fed.after.supplies, name, "Drink");
    assert s.supplies == [] ==> !HasKind(s.supplies, Food) && !HasKind(fed.after.supplies, Drink);
    drunk.after
  }

  /** The second loop of `next_day`, over its first `n` players in list order. */
  function Feed(ps: seq<Player>, st: seq<real>, sup: seq<Supply>, n: nat): (r: State)
    requires n <= |ps| && |st| == |ps|
    ensures |r.stamina| == |st|
    ensures multiset(r.supplies) <= multiset(sup)
    ensures AllInRange(st) && AllValid(sup) ==> AllInRange(r.stamina) && AllValid(r.supplies)
    ensures sup == [] ==> r == State(st, [])
  {
    if n == 0 then State(st, sup)
    else FeedOne(ps, Feed(ps, st, sup, n - 1), ps[n - 1].name)
  }

  /** `Controller.next_day()` */
  function NextDay(ps: seq<Player>, st: seq<real>, sup: seq<Supply>): (r: State)
    requires |st| == |ps|
    ensures |r.stamina| == |st|
    // supplies are only ever taken away
    ensures multiset(r.supplies) <= multiset(sup)
    // every stamina stays in [0, 100] across the whole day
    ensures AllInRange(st) && AllValid(sup) && (forall k :: 0 <= k < |ps| ==> ps[k].age >= 0) ==>
      AllInRange(r.stamina) && AllValid(r.supplies)
    // with nothing to eat or drink, a day is the decay alone
    ensures sup == [] ==> r == State(Decay(ps, st), [])
  {
    var decayed := Decay(ps, st);
    assert AllInRange(st) && (forall k :: 0 <= k < |ps| ==> ps[k].age >= 0) ==> AllInRange(decayed);
    Feed(ps, decayed, sup, |ps|)
  }

  // ---------------------------------------------------------------- add_player

  /** The players `add_player(*args)` appends, in order: each argument not already in the list. */
  function Admit(existing: seq<Player>, args: seq<Player>): (r: seq<Player>)
    ensures forall p :: p in r ==> p in args && p !in existing
    ensures forall p :: p in args ==> p in existing || p in r
    ensures Distinct(existing) ==> Distinct(existing + r)
    decreases |args|
  {
    if args == [] then []
    else if args[0] in existing then Admit(existing, args[1..])
    else
      var rest := Admit(existing + [args[0]], args[1..]);
      assert existing + ([args[0]] + rest) == (existing + [args[0]]) + rest;
      [args[0]] + rest
  }

  /** One step of `add_player`'s loop: the first argument joins the list unless it is already there. */
  lemma AdmitFirst(existing: seq<Player>, args: seq<Player>)
    requires args != []
    ensures var next := if args[0] in existing then existing else existing + [args[0]];
      existing + Admit(existing, args) == next + Admit(next, args[1..])
  {
    if args[0] !in existing {
      var rest := Admit(existing + [args[0]], args[1..]);
      assert existing + ([args[0]] + rest) == (existing + [args[0]]) + rest;
    }
  }
}
