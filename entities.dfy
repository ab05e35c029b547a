/**
 * The validated entities of the game: supplies (food and drink), players,
 * and the registry that keeps player names unique.
 */
module Entities {
  import opened Outcomes

  /** The `type` tag a supply variant carries. */
  datatype Kind = Food | Drink

  function KindName(k: Kind): (r: string)
    ensures r == "Food" <==> k == Food
    ensures r == "Drink" <==> k == Drink
  {
    match k
    case Food => "Food"
    case Drink => "Drink"
  }

  /** What a setter or a constructor raises. */
  datatype Error =
    | EmptyName
    | NegativeEnergy
    | AgeTooLow
    | StaminaOutOfRange
    | NameTaken(name: string)
    | NoSuchPlayer(name: string)

  const DefaultFoodEnergy: real := 25.0
  const DrinkEnergy: real := 15.0
  const MinAge: int := 12
  const MaxStamina: real := 100.0

  /** The range the stamina setter accepts. */
  predicate InRange(stamina: real) {
    0.0 <= stamina <= MaxStamina
  }

  /** The checks a supply's name and energy setters make, in the order the constructor runs them. */
  function CheckSupply(name: string, energy: real): (r: Outcome<Error>)
    ensures r.Pass? <==> name != "" && energy >= 0.0
    ensures name == "" ==> r == Fail(EmptyName)
    ensures name != "" && energy < 0.0 ==> r == Fail(NegativeEnergy)
  {
    if name == "" then Fail(EmptyName)
    else if energy < 0.0 then Fail(NegativeEnergy)
    else Pass
  }

  /** The checks a player's name, age and stamina setters make, in the order the constructor runs them. */
  function CheckPlayer(name: string, age: int, stamina: real): (r: Outcome<Error>)
    ensures r.Pass? <==> name != "" && age >= MinAge && InRange(stamina)
    ensures name == "" ==> r == Fail(EmptyName)
    ensures name != "" && age < MinAge ==> r == Fail(AgeTooLow)
    ensures name != "" && age >= MinAge && !InRange(stamina) ==> r == Fail(StaminaOutOfRange)
  {
    if name == "" then Fail(EmptyName)
    else if age < MinAge then Fail(AgeTooLow)
    else if !InRange(stamina) then Fail(StaminaOutOfRange)
    else Pass
  }

  /**
   * A supply. Its fields never change once it is built, and two supplies are
   * the same supply only when they are the same object.
   */
  class Supply {
    const kind: Kind
    const name: string
    const energy: real

    predicate Valid() {
      CheckSupply(name, energy).Pass?
    }

    constructor (kind: Kind, name: string, energy: real)
      requires CheckSupply(name, energy).Pass?
      ensures this.kind == kind && this.name == name && this.energy == energy
      ensures Valid()
    {
      this.kind := kind;
      this.name := name;
      this.energy := energy;
    }

    /** `Food(name, energy=25)`: raises on an empty name or a negative energy. */
    static method NewFood(name: string, energy: real := DefaultFoodEnergy) returns (r: Result<Supply, Error>)
      ensures r.Failure? <==> CheckSupply(name, energy).Fail?
      ensures r.Failure? ==> r.error == CheckSupply(name, energy).error
      ensures r.Success? ==> fresh(r.value) && r.value.Valid()
      ensures r.Success? ==> r.value.kind == Food && r.value.name == name && r.value.energy == energy
    {
      var check := CheckSupply(name, energy);
      if check.Fail? {
        return Failure(check.error);
      }
      var s := new Supply(Food, name, energy);
      return Success(s);
    }

    /** `Drink(name)`: the energy is always the drink's initial energy; only the name can be rejected. */
    static method NewDrink(name: string) returns (r: Result<Supply, Error>)
      ensures r.Failure? <==> name == ""
      ensures r.Failure? ==> r.error == EmptyName
      ensures r.Success? ==> fresh(r.value) && r.value.Valid()
      ensures r.Success? ==> r.value.kind == Drink && r.value.name == name && r.value.energy == DrinkEnergy
    {
      var check := CheckSupply(name, DrinkEnergy);
      if check.Fail? {
        return Failure(check.error);
      }
      var s := new Supply(Drink, name, DrinkEnergy);
      return Success(s);
    }
  }

  /** The set of every name a player has been built with; names are never released. */
  class Registry {
    var names: set<string>

    constructor ()
      ensures names == {}
    {
      names := {};
    }
  }

  /** A player. Only the stamina changes after construction, and only through SetStamina. */
  class Player {
    const name: string
    const age: int
    var stamina: real

    predicate Valid()
      reads this
    {
      CheckPlayer(name, age, stamina).Pass?
    }

    /** `need_sustenance`: true below full stamina. */
    predicate NeedSustenance(): (r: bool)
      reads this
      // a valid player needs sustenance exactly when not at full stamina
      ensures Valid() ==> (r <==> stamina != MaxStamina)
      ensures r ==> stamina < MaxStamina
    {
      stamina < MaxStamina
    }

    constructor (name: string, age: int, stamina: real)
      requires CheckPlayer(name, age, stamina).Pass?
      ensures this.name == name && this.age == age && this.stamina == stamina
      ensures Valid()
    {
      this.name := name;
      this.age := age;
      this.stamina := stamina;
    }

    /** The stamina setter: a value outside [0, 100] raises and leaves the stamina as it was. */
    method SetStamina(value: real) returns (o: Outcome<Error>)
      modifies this
      ensures o.Pass? <==> InRange(value)
      ensures o.Fail? ==> o.error == StaminaOutOfRange
      ensures stamina == if o.Pass? then value else old(stamina)
    {
      if !InRange(value) {
        return Fail(StaminaOutOfRange);
      }
      stamina := value;
      return Pass;
    }

    /**
     * `Player(name, age, stamina=100)`: the setters' checks come first; then a
     * name already in the registry raises, and otherwise it is added for good.
     */
    static method Create(registry: Registry, name: string, age: int, stamina: real := MaxStamina)
      returns (r: Result<Player, Error>)
      modifies registry
      ensures CheckPlayer(name, age, stamina).Fail? ==>
        r == Failure(CheckPlayer(name, age, stamina).error) && registry.names == old(registry.names)
      ensures CheckPlayer(name, age, stamina).Pass? && name in old(registry.names) ==>
        r == Failure(NameTaken(name)) && registry.names == old(registry.names)
      ensures CheckPlayer(name, age, stamina).Pass? && name !in old(registry.names) ==>
        r.Success? && fresh(r.value) && r.value.Valid() &&
        r.value.name == name && r.value.age == age && r.value.stamina == stamina &&
        registry.names == old(registry.names) + {name}
    {
      var check := CheckPlayer(name, age, stamina);
      if check.Fail? {
        return Failure(check.error);
      }
      var p := new Player(name, age, stamina);
      if name in registry.names {
        return Failure(NameTaken(name));
      }
      registry.names := registry.names + {name};
      return Success(p);
    }
  }

  /** Building a second player under a name that is already registered raises, whatever the first attempt did. */
  method SecondPlayerWithSameName(registry: Registry, name: string, age: int) returns (second: Result<Player, Error>)
    requires name != "" && age >= MinAge
    modifies registry
    ensures second == Failure(NameTaken(name))
    ensures registry.names == old(registry.names) + {name}
  {
    var first := Player.Create(registry, name, age);
    second := Player.Create(registry, name, age);
  }
}
