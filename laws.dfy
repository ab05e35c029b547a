/** Properties of the controller's rules that relate several calls or pin down a whole step. */
module Laws {
  import opened Outcomes
  import opened Entities
  import opened Rules

  // ---------------------------------------------------------------- sustain

  /**
   * A sustain that finds the player below full stamina and a supply of the
   * kind takes the last supply of that kind, removes the first entry that is
   * that same object (never one after it) and keeps every other entry in
   * order; only the named player's stamina moves.
   */
  lemma SustainTakesLastOfKind(ps: seq<Player>, st: seq<real>, sup: seq<Supply>, who: string, k: Kind, i: nat, last: nat)
    requires |st| == |ps|
    requires FindPlayer(ps, who) == Some(i) && st[i] < MaxStamina
    requires last < |sup| && sup[last].kind == k
    requires forall x :: last < x < |sup| ==> sup[x].kind != k
    ensures
      var f := FirstIndex(sup, sup[last]);
      && f <= last
      && Sustain(ps, st, sup, who, KindName(k)) ==
           SustainStep(Sustained(who, sup[last].name), State(st[i := Refill(st[i], sup[last].energy)], sup[..f] + sup[f + 1..]))
  {
    RemoveFirstCutsAtFirstIndex(sup, sup[last]);
    SustainTakesLast(ps, st, sup, who, k, i, last);
  }

  /** `RemoveFirst` drops exactly the entry at `FirstIndex`. */
  lemma RemoveFirstCutsAtFirstIndex(sup: seq<Supply>, s: Supply)
    requires s in sup
    ensures var f := FirstIndex(sup, s); f < |sup| && RemoveFirst(sup, s) == sup[..f] + sup[f + 1..]
  {
  }

  /** The successful branch of a sustain takes the supply at `last` and removes it with `RemoveFirst`. */
  lemma SustainTakesLast(ps: seq<Player>, st: seq<real>, sup: seq<Supply>, who: string, k: Kind, i: nat, last: nat)
    requires |st| == |ps|
    requires FindPlayer(ps, who) == Some(i) && st[i] < MaxStamina
    requires last < |sup| && sup[last].kind == k
    requires forall x :: last < x < |sup| ==> sup[x].kind != k
    ensures Sustain(ps, st, sup, who, KindName(k)) ==
      SustainStep(Sustained(who, sup[last].name), State(st[i := Refill(st[i], sup[last].energy)], RemoveFirst(sup, sup[last])))
  {
    assert KindNamed(KindName(k)) == Some(k);
    assert HasKind(sup, k) by { assert 0 <= last < |sup| && sup[last].kind == k; }
    var l := LastOfKind(sup, k).value;
    assert l == last by { assert !(l < last) && !(last < l); }
  }

  /** The player's need for sustenance is what decides whether a supply that exists is consumed. */
  lemma SustainConsumesIffNeeded(ps: seq<Player>, st: seq<real>, sup: seq<Supply>, i: nat, k: Kind)
    requires |st| == |ps| && i < |ps| && FindPlayer(ps, ps[i].name) == Some(i)
    requires HasKind(sup, k)
    ensures Sustain(ps, st, sup, ps[i].name, KindName(k)).result.Sustained? <==> st[i] < MaxStamina
    ensures !Sustain(ps, st, sup, ps[i].name, KindName(k)).result.Sustained? ==>
      Sustain(ps, st, sup, ps[i].name, KindName(k)) == SustainStep(HasEnough(ps[i].name), State(st, sup))
  {
  }

  /** When a supply of the kind exists, a player name that matches no listed player raises and changes nothing. */
  lemma SustainRaisesForUnknownPlayer(ps: seq<Player>, st: seq<real>, sup: seq<Supply>, who: string, k: Kind)
    requires |st| == |ps| && HasKind(sup, k) && FindPlayer(ps, who).None?
    ensures Sustain(ps, st, sup, who, KindName(k)) == SustainStep(SustainError(NoSuchPlayer(who)), State(st, sup))
  {
    assert KindNamed(KindName(k)) == Some(k);
  }

  /** With one food of energy 30 and a player at 90, the player ends at exactly 100 and the food is gone. */
  lemma SustainClampsAtMaximum(p: Player, food: Supply)
    requires food.kind == Food && food.energy == 30.0
    ensures Sustain([p], [90.0], [food], p.name, "Food") == SustainStep(Sustained(p.name, food.name), State([100.0], []))
  {
  }

  // ---------------------------------------------------------------- duel

  /** A duel of 50 against 80: the player who started lower wins; 80 drops to 55, then 50 drops to 22.5. */
  lemma DuelHalvesTwice(a: Player, b: Player)
    requires a.name == "A" && b.name == "B"
    ensures Duel([a, b], [50.0, 80.0], "A", "B") == DuelStep(Winner("A"), [22.5, 55.0])
  {
    assert FindPlayer([a, b], "A") == Some(0);
    assert [a, b][1..] == [b];
    assert FindPlayer([a, b], "B") == Some(1);
  }

  /**
   * When the higher stamina exceeds two and a half times the lower, the
   * second halving would go negative: the duel raises with the higher
   * player's stamina already lowered and the lower player's untouched.
   */
  lemma DuelRaisesAfterPartialUpdate(a: Player, b: Player)
    requires a.name == "A" && b.name == "B"
    ensures Duel([a, b], [10.0, 90.0], "A", "B") == DuelStep(DuelError(StaminaOutOfRange), [10.0, 85.0])
  {
    assert FindPlayer([a, b], "A") == Some(0);
    assert [a, b][1..] == [b];
    assert FindPlayer([a, b], "B") == Some(1);
  }

  /** A duel against a player with no stamina names only that player and changes nothing. */
  lemma DuelWithExhaustedPlayer(a: Player, b: Player)
    requires a.name == "A" && b.name == "B"
    ensures Duel([a, b], [0.0, 40.0], "A", "B") == DuelStep(LackStamina(["A"]), [0.0, 40.0])
  {
    assert FindPlayer([a, b], "A") == Some(0);
    assert [a, b][1..] == [b];
    assert FindPlayer([a, b], "B") == Some(1);
  }

  /**
   * Between two registered players the order of the names changes neither
   * the staminas a duel leaves nor who wins it.
   */
  lemma DuelIgnoresArgumentOrder(ps: seq<Player>, st: seq<real>, a: string, b: string)
    requires |st| == |ps| && FindPlayer(ps, a).Some? && FindPlayer(ps, b).Some?
    ensures Duel(ps, st, a, b).stamina == Duel(ps, st, b, a).stamina
    ensures Duel(ps, st, a, b).result.Winner? ==> Duel(ps, st, a, b).result == Duel(ps, st, b, a).result
  {
  }

  // ---------------------------------------------------------------- next day

  /** A player aged 20 with stamina 50 and nothing to eat or drink ends the day at 10. */
  lemma NextDayDecaysByTwiceTheAge(p: Player)
    requires p.age == 20
    ensures NextDay([p], [50.0], []) == State([10.0], [])
  {
  }

  /** A player aged 20 with stamina 30 keeps 30: the decay would go below zero, and the clamp never fires. */
  lemma NextDaySkipsDecayBelowZero(p: Player)
    requires p.age == 20
    ensures NextDay([p], [30.0], []) == State([30.0], [])
  {
  }

  /**
   * Two players aged 20 at full stamina and one food of energy 30: the day
   * takes both to 60, and the first player in the list eats the food.
   */
  lemma NextDayFeedsInListOrder(p: Player, q: Player, food: Supply)
    requires p.age == 20 && q.age == 20 && p.name != q.name
    requires food.kind == Food && food.energy == 30.0
    ensures NextDay([p, q], [100.0, 100.0], [food]) == State([90.0, 60.0], [])
  {
    assert Decay([p, q], [100.0, 100.0]) == [60.0, 60.0];
    assert FindPlayer([p, q], p.name) == Some(0);
    assert [p, q][1..] == [q];
    assert FindPlayer([p, q], q.name) == Some(1);
    var fed := State([90.0, 60.0], []);
    assert Sustain([p, q], [60.0, 60.0], [food], p.name, "Food") == SustainStep(Sustained(p.name, food.name), fed);
    assert FeedOne([p, q], State([60.0, 60.0], [food]), p.name) == fed;
    assert Feed([p, q], [60.0, 60.0], [food], 1) == fed;
  }

  // ---------------------------------------------------------------- add_player

  lemma {:induction false} AdmitNothingNew(existing: seq<Player>, args: seq<Player>)
    requires forall p :: p in args ==> p in existing
    ensures Admit(existing, args) == []
    decreases |args|
  {
    if args != [] {
      AdmitNothingNew(existing, args[1..]);
    }
  }

  /**
   * The players are admitted in argument order: one more argument at the end
   * adds that player at the end, unless it is already listed or admitted.
   * With `Admit(existing, []) == []` this determines Admit completely.
   */
  lemma {:induction false} AdmitKeepsArgumentOrder(existing: seq<Player>, args: seq<Player>, p: Player)
    ensures Admit(existing, args + [p]) ==
      Admit(existing, args) + (if p in existing + Admit(existing, args) then [] else [p])
    decreases |args|
  {
    if args == [] {
      assert args + [p] == [p];
    } else {
      var a, tail := args[0], args[1..];
      assert (args + [p])[0] == a && (args + [p])[1..] == tail + [p];
      if a in existing {
        AdmitKeepsArgumentOrder(existing, tail, p);
      } else {
        AdmitKeepsArgumentOrder(existing + [a], tail, p);
        AdmitAfterNewcomer(existing, a, Admit(existing + [a], tail), p);
      }
    }
  }

  /** Membership after a newcomer is the same whether it is counted with the list or with the admitted. */
  lemma AdmitAfterNewcomer(existing: seq<Player>, a: Player, rest: seq<Player>, p: Player)
    ensures p in existing + ([a] + rest) <==> p in (existing + [a]) + rest
  {
    assert existing + ([a] + rest) == (existing + [a]) + rest;
  }

  /** Adding the same players a second time adds nobody. */
  lemma AddPlayersTwice(existing: seq<Player>, args: seq<Player>)
    ensures Admit(existing + Admit(existing, args), args) == []
  {
    var once := existing + Admit(existing, args);
    forall p | p in args
      ensures p in once
    {
    }
    AdmitNothingNew(once, args);
  }
}
