/**
 * The Controller: the list of registered players and the list of supplies,
 * updated in place. Sustain, Duel and NextDay are proved to do what the
 * matching function of module Rules says, on the staminas and the supply
 * list they started from; the other operations state their effect directly.
 */
module Game {
  import opened Outcomes
  import opened Entities
  import opened Rules

  /** One line of the controller's report: `str(player)` or `supply.details()`, as values. */
  datatype Line =
    | PlayerLine(name: string, age: int, stamina: real, needsSustenance: bool)
    | SupplyLine(kind: Kind, name: string, energy: real)

  /** `supply.details()`: its kind's tag, its name and its energy. */
  function Details(s: Supply): (r: Line)
    ensures r.SupplyLine? && r.kind == s.kind && r.name == s.name && r.energy == s.energy
    // the tag printed is the supply's kind name
    ensures KindName(r.kind) == "Food" <==> s.kind == Food
  {
    SupplyLine(s.kind, s.name, s.energy)
  }

  /** `str(player)`: name, age, stamina, and whether the player needs sustenance. */
  function Describe(p: Player): (r: Line)
    reads p
    ensures r.PlayerLine? && r.name == p.name && r.age == p.age && r.stamina == p.stamina
    // `need_sustenance` holds exactly below full stamina
    ensures r.needsSustenance <==> p.stamina < MaxStamina
  {
    PlayerLine(p.name, p.age, p.stamina, p.NeedSustenance())
  }

  class Controller {
    var players: seq<Player>
    var supplies: seq<Supply>

    /**
     * A player object is listed at most once, and every listed player and
     * supply passed its setters' checks.
     */
    ghost predicate Valid()
      reads this, players
    {
      && Distinct(players)
      && (forall k :: 0 <= k < |players| ==> players[k].Valid())
      && AllValid(supplies)
    }

    /** The players' staminas, in list order. */
    function Staminas(): (r: seq<real>)
      reads this, players
      ensures |r| == |players|
      ensures forall k :: 0 <= k < |players| ==> r[k] == players[k].stamina
    {
      seq(|players|, k reads this, players requires 0 <= k < |players| => players[k].stamina)
    }

    constructor ()
      ensures players == [] && supplies == []
      ensures Valid()
    {
      players := [];
      supplies := [];
    }

    /** `add_player(*players)`: appends, in order, each argument not already listed; returns the names appended. */
    method AddPlayers(args: seq<Player>) returns (added: seq<string>)
      requires Valid()
      requires forall k :: 0 <= k < |args| ==> args[k].Valid()
      modifies this
      ensures Valid()
      ensures supplies == old(supplies)
      ensures players == old(players) + Admit(old(players), args)
      ensures added == Names(Admit(old(players), args))
    {
      added := [];
      for i := 0 to |args|
        invariant Valid()
        invariant supplies == old(supplies)
        invariant |old(players)| <= |players| && players[..|old(players)|] == old(players)
        invariant players + Admit(players, args[i..]) == old(players) + Admit(old(players), args)
        invariant added == Names(players[|old(players)|..])
      {
        var p := args[i];
        assert args[i..][1..] == args[i + 1..];
        AdmitFirst(players, args[i..]);
        if p !in players {
          assert (players + [p])[|old(players)|..] == players[|old(players)|..] + [p];
          NamesAppend(players[|old(players)|..], p);
          DistinctAppend(players, p);
          players := players + [p];
          added := added + [p.name];
        }
      }
      assert args[|args|..] == [];
    }

    /** `add_supply(*supplies)`: appends every argument, in order, duplicates included. */
    method AddSupplies(args: seq<Supply>)
      requires Valid()
      requires AllValid(args)
      modifies this
      ensures Valid()
      ensures players == old(players)
      ensures supplies == old(supplies) + args
    {
      for i := 0 to |args|
        invariant Valid()
        invariant players == old(players)
        invariant supplies == old(supplies) + args[..i]
      {
        supplies := supplies + [args[i]];
        assert args[..i + 1] == args[..i] + [args[i]];
      }
      assert args[..|args|] == args;
    }

    /**
     * `sustain(name, kind)`: the checks run in the source's order; the
     * supply taken is the last of its kind, and the entry removed is the
     * first one that is that same object.
     */
    method Sustain(who: string, req: string) returns (r: SustainResult)
      requires Valid()
      modifies this, players
      ensures Valid()
      ensures players == old(players)
      ensures SustainStep(r, State(Staminas(), supplies)) == Rules.Sustain(players, old(Staminas()), old(supplies), who, req)
    {
      ghost var st := Staminas();
      ghost var sup := supplies;
      var hasFood := HasKind(supplies, Food);
      var hasDrink := HasKind(supplies, Drink);
      if !hasFood && req == "Food" {
        assert Rules.Sustain(players, st, sup, who, req) == SustainStep(NoSupplies(Food), State(st, sup));
        return NoSupplies(Food);
      } else if !hasDrink && req == "Drink" {
        assert Rules.Sustain(players, st, sup, who, req) == SustainStep(NoSupplies(Drink), State(st, sup));
        return NoSupplies(Drink);
      } else if (hasFood && req == "Food") || (hasDrink && req == "Drink") {
        var kind := if req == "Food" then Food else Drink;
        assert KindNamed(req) == Some(kind);
        var last := supplies[LastOfKind(supplies, kind).value];
        var found := FindPlayer(players, who);
        if found.None? {
          assert Rules.Sustain(players, st, sup, who, req) == SustainStep(SustainError(NoSuchPlayer(who)), State(st, sup));
          return SustainError(NoSuchPlayer(who));
        }
        var i := found.value;
        var p := players[i];
        if p.stamina >= MaxStamina {
          assert Rules.Sustain(players, st, sup, who, req) == SustainStep(HasEnough(who), State(st, sup));
          return HasEnough(who);
        }
        Consume(i, last);
        assert Rules.Sustain(players, st, sup, who, req) ==
          SustainStep(Sustained(who, last.name), State(st[i := Refill(st[i], last.energy)], supplies));
        return Sustained(who, last.name);
      }
      assert Rules.Sustain(players, st, sup, who, req) == SustainStep(NoReply, State(st, sup));
      return NoReply;
    }

    /**
     * The consuming branch of `sustain`: the player at `i` gains the supply's
     * energy, or is set to the maximum when the setter refuses the sum, and
     * the first entry that is the supply itself leaves the list.
     */
    method Consume(i: nat, last: Supply)
      requires Valid() && i < |players| && last in supplies
      modifies this, players[i]
      ensures Valid()
      ensures players == old(players)
      ensures Staminas() == old(Staminas())[i := Refill(old(Staminas())[i], last.energy)]
      ensures supplies == RemoveFirst(old(supplies), last)
    {
      var p := players[i];
      var o := p.SetStamina(p.stamina + last.energy);
      if o.Fail? {
        o := p.SetStamina(MaxStamina);
      }
      supplies := RemoveFirst(supplies, last);
      assert forall k :: 0 <= k < |players| && k != i ==> players[k] != p;
    }

    /**
     * `duel(a, b)`: the player with less stamina wins; each stamina write
     * goes through the setter, so a second write that would go negative
     * raises after the first has been stored.
     */
    method Duel(a: string, b: string) returns (r: DuelResult)
      requires Valid()
      modifies players
      ensures Valid()
      ensures DuelStep(r, Staminas()) == Rules.Duel(players, old(Staminas()), a, b)
    {
      var fa := FindPlayer(players, a);
      if fa.None? {
        return DuelError(NoSuchPlayer(a));
      }
      var fb := FindPlayer(players, b);
      if fb.None? {
        return DuelError(NoSuchPlayer(b));
      }
      var i, j := fa.value, fb.value;
      var first, second := players[i], players[j];
      if first.stamina > 0.0 && second.stamina > 0.0 {
        if first.stamina < second.stamina {
          r := Strike(i, j, a);
          return;
        } else if second.stamina < first.stamina {
          r := Strike(j, i, b);
          return;
        }
        return NoWinner;
      } else if first.stamina == 0.0 && second.stamina == 0.0 {
        return LackStamina([a, b]);
      } else if first.stamina == 0.0 {
        return LackStamina([a]);
      }
      // no stamina is negative, so here the second one is 0 and the first is not
      return LackStamina([b]);
    }

    /**
     * One of the two symmetric branches of `duel`: the player at `lo` (named
     * `loName`) started with less stamina than the player at `hi`.
     */
    method Strike(lo: nat, hi: nat, loName: string) returns (r: DuelResult)
      requires Valid() && lo < |players| && hi < |players|
      requires 0.0 < players[lo].stamina < players[hi].stamina
      modifies players[lo], players[hi]
      ensures Valid()
      ensures DuelStep(r, Staminas()) == Exchange(old(Staminas()), lo, hi, loName)
    {
      ghost var st := Staminas();
      var o := WriteStamina(hi, players[hi].stamina - players[lo].stamina / 2.0);
      // the higher stamina less half of a lower positive one stays within [0, 100]
      assert o.Pass?;
      if players[hi].stamina < 0.0 {
        // the setter never stores a negative stamina, so this clamp cannot run
        assert false;
      }
      ghost var mid := Staminas();
      o := WriteStamina(lo, players[lo].stamina - players[hi].stamina / 2.0);
      ExchangeSteps(st, lo, hi, loName, mid, Staminas(), o.Pass?);
      if o.Fail? {
        return DuelError(o.error);
      }
      return Winner(loName);
    }

    /** `player.stamina = value` on the player at `k`: the setter either stores the value or raises and changes nothing. */
    method WriteStamina(k: nat, value: real) returns (o: Outcome<Error>)
      requires Valid() && k < |players|
      modifies players[k]
      ensures Valid()
      ensures o.Pass? <==> InRange(value)
      ensures o.Fail? ==> o.error == StaminaOutOfRange
      ensures Staminas() == if o.Pass? then old(Staminas())[k := value] else old(Staminas())
    {
      var p := players[k];
      o := p.SetStamina(value);
      assert forall j :: 0 <= j < |players| && j != k ==> players[j] != p;
    }

    /**
     * `next_day()`: every player loses twice their age in stamina unless that
     * would go below zero; then every player, in list order, takes food and
     * then drink.
     */
    method NextDay()
      requires Valid()
      modifies this, players
      ensures Valid()
      ensures players == old(players)
      ensures State(Staminas(), supplies) == Rules.NextDay(players, old(Staminas()), old(supplies))
    {
      DecayAll();
      FeedAll();
    }

    /** The first loop of `next_day`: each player's stamina decays, through the setter. */
    method DecayAll()
      requires Valid()
      modifies players
      ensures Valid()
      ensures Staminas() == Decay(players, old(Staminas()))
    {
      ghost var st := Staminas();
      for i := 0 to |players|
        invariant Valid()
        invariant forall k :: 0 <= k < i ==> players[k].stamina == Decayed(st[k], players[k].age)
        invariant forall k :: i <= k < |players| ==> players[k].stamina == st[k]
      {
        var p := players[i];
        var o := p.SetStamina(p.stamina - (2 * p.age) as real);
        if o.Fail? && p.stamina < 0.0 {
          // a failed write leaves the stamina as it was, and it was never negative
          assert false;
        }
      }
    }

    /** The second loop of `next_day`: each player, in list order, takes food and then drink. */
    method FeedAll()
      requires Valid()
      modifies this, players
      ensures Valid()
      ensures players == old(players)
      ensures State(Staminas(), supplies) == Feed(players, old(Staminas()), old(supplies), |players|)
    {
      ghost var st, sup := Staminas(), supplies;
      // the state Rules.Feed reaches after the first `i` players
      ghost var s := State(st, sup);
      var i := 0;
      while i < |players|
        invariant i <= |players| && |st| == |players|
        invariant Valid()
        invariant players == old(players)
        invariant s == Feed(players, st, sup, i)
        invariant State(Staminas(), supplies) == s
      {
        FeedPlayer(i);
        s := FeedOne(players, s, players[i].name);
        i := i + 1;
      }
    }

    /** One turn of the second loop of `next_day`: the player at `i` takes food, then drink. */
    method FeedPlayer(i: nat)
      requires Valid() && i < |players|
      modifies this, players
      ensures Valid()
      ensures players == old(players)
      ensures State(Staminas(), supplies) == FeedOne(players, State(old(Staminas()), old(supplies)), players[i].name)
    {
      var name := players[i].name;
      var fed := Sustain(name, "Food");
      var drunk := Sustain(name, "Drink");
    }

    /** `str(controller)`: one line per player, then one line per supply, in list order. */
    method Report() returns (lines: seq<Line>)
      ensures |lines| == |players| + |supplies|
      ensures forall k :: 0 <= k < |players| ==> lines[k] == Describe(players[k])
      ensures forall k :: 0 <= k < |supplies| ==> lines[|players| + k] == Details(supplies[k])
    {
      var playerLines := [];
      for i := 0 to |players|
        invariant |playerLines| == i
        invariant forall k :: 0 <= k < i ==> playerLines[k] == Describe(players[k])
      {
        playerLines := playerLines + [Describe(players[i])];
      }
      var supplyLines := [];
      for i := 0 to |supplies|
        invariant |supplyLines| == i
        invariant forall k :: 0 <= k < i ==> supplyLines[k] == Details(supplies[k])
      {
        supplyLines := supplyLines + [Details(supplies[i])];
      }
      lines := playerLines + supplyLines;
    }
  }
}
