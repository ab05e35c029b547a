# Supplies, players and the controller — a Dafny model

This project models a small turn-based rule engine written in Python:

- **Supplies.** A supply is food or drink with a name and an energy. Both are validated. Food defaults to 25 energy, and a drink is built with 15 energy.
- **Players.** A player has a name, an age and a stamina. All three are validated, and the stamina must stay in [0, 100]. A registry keeps player names unique for good.
- **The controller.** It keeps an ordered list of players and an ordered list of supplies, and offers these operations:
  - it adds players, skipping those already listed;
  - it adds supplies, repeats included;
  - it sustains a player with the last supply of a kind;
  - it runs a duel in which the player with less stamina wins;
  - it advances a day: every player's stamina decays, then every player eats and drinks;
  - it reports its contents.

The modules follow the program's structure:

- `Outcomes` (`outcomes.dfy`): `Option`, `Result` and `Outcome`. They stand for `None` and for a raised exception.
- `Entities` (`entities.dfy`): the supply and player classes and their setters' checks, plus the name registry.
  - `Supply` is a class with constant fields. Two entries of the supply list are the same supply only when they are the same object, as in Python.
  - `Player` keeps `name` and `age` constant. Its stamina changes only through `SetStamina`, the validated setter.
- `Rules` (`rules.dfy`): every controller operation as a function of values. The values are the players, their staminas in list order, and the supply list. The functions are total: each stamina write goes through the setter's range check, as in the source. Their contracts say what happens when every stamina is in range.
- `Laws` (`laws.dfy`): properties that relate several calls or pin down a whole step.
- `Game` (`controller.dfy`): the `Controller` class.
  - Its `players` and `supplies` fields are updated in place.
  - `Sustain`, `Duel` and `NextDay` are proved to leave exactly the state, and return exactly the result, that the matching `Rules` function gives on the state the method started from. `AddPlayers` is stated through `Rules.Admit`; `AddSupplies` and `Report` state their new list or their lines directly.
  - The invariant `Valid` is kept by every method. Every listed player is listed once and passed its checks, so every stamina stays in [0, 100].

Returned messages are result values, one constructor per message shape. A raised error is an `Error` value.

Three of the program's behaviours differ from what its structure suggests:

- **The duel's clamp to 0 cannot run.** A stamina write that would go negative raises in the setter before anything is stored, so the clamp never executes. When the higher stamina H exceeds 5/2 of the lower stamina L, the duel does this:
  - it stores H - L/2;
  - it raises on the second write.

  So the player who started lower is named winner only when the duel completes, and a duel is not atomic.
- **Decay leaves the stamina unchanged instead of clamping it to 0.** `next_day` keeps the stamina when `stamina - 2*age` would be negative. The clamp in its handler tests the value the failed write left, which is never negative.
- **Stamina is rejected, not clamped.** The stamina is checked and rejected, and clamped nowhere except in `sustain`'s handler.

## Model

| member | source | states |
|---|---|---|
| Entities.CheckSupply | task_1_and_taks_two_in_one_file.py:13-27 | a supply's fields pass exactly when the name is non-empty and the energy is non-negative; an empty name is reported first, then a negative energy |
| Entities.CheckPlayer | task_1_and_taks_two_in_one_file.py:72-96 | a player's fields pass exactly when the name is non-empty, the age is at least 12 and the stamina lies in [0, 100]; failures are reported in the constructor's order: name, age, stamina |
| Entities.Supply.constructor | task_1_and_taks_two_in_one_file.py:4-7 | a supply built from accepted fields keeps them and is valid |
| Entities.Supply.NewFood | task_1_and_taks_two_in_one_file.py:34-39 | `Food(name, energy=25)` fails exactly when the checks fail, with their error; otherwise it is a new valid food with that name and energy |
| Entities.Supply.NewDrink | task_1_and_taks_two_in_one_file.py:45-50 | `Drink(name)` fails exactly on an empty name; otherwise it is a new valid drink whose energy is 15 whatever the caller wanted |
| Entities.Registry.constructor | task_1_and_taks_two_in_one_file.py:57 | the registry starts with no names |
| Entities.Player.constructor | task_1_and_taks_two_in_one_file.py:59-62 | a player built from accepted fields keeps them and is valid |
| Entities.Player.SetStamina | task_1_and_taks_two_in_one_file.py:92-96 | the setter stores the value exactly when it lies in [0, 100]; otherwise it raises and the stamina keeps its old value |
| Entities.Player.Create | task_1_and_taks_two_in_one_file.py:59-66 | a construction failing the field checks raises their error and registers nothing; a name already registered raises and leaves the registry as it was; otherwise the result is a new valid player and its name is added |
| Entities.SecondPlayerWithSameName | task_1_and_taks_two_in_one_file.py:63-64 | a second construction under the same name always raises, and the name ends up registered |
| Rules.FindPlayer | task_1_and_taks_two_in_one_file.py:136 | the lookup yields the first position holding a player with that name, and fails exactly when no player has it |
| Rules.KindNamed | task_1_and_taks_two_in_one_file.py:130-134 | a requested kind is recognised exactly when it is "Food" or "Drink" |
| Rules.LastOfKind | task_1_and_taks_two_in_one_file.py:135 | the chosen supply is of the kind and no later entry is; there is none exactly when no supply of the kind exists |
| Rules.FirstIndex | task_1_and_taks_two_in_one_file.py:146 | `list.remove` finds the first position holding that very object |
| Rules.RemoveFirst | task_1_and_taks_two_in_one_file.py:146 | removal shortens the list by one, takes exactly one copy of the supply out of its contents, and keeps every remaining supply valid |
| Rules.Refill | task_1_and_taks_two_in_one_file.py:140-144 | from a valid stamina a valid supply raises the stamina by its energy when the sum is at most 100, and to exactly 100 otherwise |
| Rules.Sustain | task_1_and_taks_two_in_one_file.py:126-147 | an unknown kind gives `None`; no supply of the kind gives the no-supplies reply; a raise happens only for an unknown player; a supply is consumed exactly when one of the kind exists and the player is below 100; every other path changes nothing; supplies are only removed; staminas stay in range |
| Rules.Exchange | task_1_and_taks_two_in_one_file.py:153-172 | the higher stamina loses half the lower; the duel completes exactly when the higher is at most 5/2 of the lower; otherwise it raises with the higher already lowered and the lower untouched; no one else changes |
| Rules.Duel | task_1_and_taks_two_in_one_file.py:149-179 | unknown names raise, the first name first; only the two duellists change; a zero stamina stops the duel, naming each such player in argument order; equal positive staminas give `None` and no change; any winner is the player who started lower |
| Rules.Decayed | task_1_and_taks_two_in_one_file.py:183-187 | from a valid stamina the decay subtracts twice the age exactly when the result stays non-negative, and otherwise leaves the stamina as it was |
| Rules.Decay | task_1_and_taks_two_in_one_file.py:182-187 | the first loop decays every player's stamina independently |
| Rules.FeedOne | task_1_and_taks_two_in_one_file.py:189-191 | one player's food then drink keeps staminas in range, only removes supplies, and changes nothing when there are none |
| Rules.Feed | task_1_and_taks_two_in_one_file.py:189-191 | feeding the players in list order keeps staminas in range, only removes supplies, and changes nothing when there are none |
| Rules.NextDay | task_1_and_taks_two_in_one_file.py:181-191 | a day keeps every stamina in [0, 100], only removes supplies, and without supplies is the decay alone |
| Rules.Names | task_1_and_taks_two_in_one_file.py:120 | the names reported are those of the given players, one per player, in the same order |
| Rules.HasKind | task_1_and_taks_two_in_one_file.py:127-128 | a kind is present exactly when some listed supply is of that kind |
| Rules.Admit | task_1_and_taks_two_in_one_file.py:114-119 | the players appended are arguments not already listed, every argument ends up listed, and the list stays free of repeats |
| Laws.SustainTakesLastOfKind | task_1_and_taks_two_in_one_file.py:135-147 | a successful sustain names the last supply of the kind, removes the first entry that is that same object (never one after it), keeps the other entries in order, and moves only that player's stamina |
| Laws.SustainConsumesIffNeeded | task_1_and_taks_two_in_one_file.py:137-138 | when a supply of the kind exists, it is consumed exactly when the player needs sustenance; otherwise the reply is "enough stamina" and nothing changes |
| Laws.SustainRaisesForUnknownPlayer | task_1_and_taks_two_in_one_file.py:135-136 | when a supply of the kind exists, a name matching no listed player raises and nothing changes |
| Laws.SustainClampsAtMaximum | task_1_and_taks_two_in_one_file.py:140-146 | a player at 90 given the only food, of energy 30, ends at exactly 100 and the food is gone |
| Laws.DuelHalvesTwice | task_1_and_taks_two_in_one_file.py:153-162 | 50 against 80: 80 drops to 55, then 50 drops to 22.5, and the player who started at 50 wins |
| Laws.DuelRaisesAfterPartialUpdate | task_1_and_taks_two_in_one_file.py:154-161 | 10 against 90: 90 drops to 85 and is stored, then the second write raises and 10 stays |
| Laws.DuelWithExhaustedPlayer | task_1_and_taks_two_in_one_file.py:176-177 | 0 against 40 names only the exhausted player and changes nothing |
| Laws.DuelIgnoresArgumentOrder | task_1_and_taks_two_in_one_file.py:153-172 | swapping the two names changes neither the staminas a duel leaves nor its winner |
| Laws.NextDayDecaysByTwiceTheAge | task_1_and_taks_two_in_one_file.py:184 | a player aged 20 at 50 with nothing to eat ends the day at 10 |
| Laws.NextDaySkipsDecayBelowZero | task_1_and_taks_two_in_one_file.py:183-187 | a player aged 20 at 30 keeps 30: the decay would go negative and the clamp does not fire |
| Laws.NextDayFeedsInListOrder | task_1_and_taks_two_in_one_file.py:189-191 | two players decayed to 60 and one food of 30: the first player in the list eats it, the second gets nothing |
| Laws.AdmitNothingNew | task_1_and_taks_two_in_one_file.py:116-119 | adding players who are all listed already appends nobody |
| Laws.AdmitKeepsArgumentOrder | task_1_and_taks_two_in_one_file.py:116-119 | newcomers are appended in argument order: one more argument at the end is appended at the end, unless it is already listed or already admitted |
| Laws.AddPlayersTwice | task_1_and_taks_two_in_one_file.py:114-119 | adding the same players a second time appends nobody |
| Entities.Player.NeedSustenance | task_1_and_taks_two_in_one_file.py:98-103 | a player needs sustenance only below 100 stamina, and a valid player exactly when it is not at 100 |
| Entities.KindName | task_1_and_taks_two_in_one_file.py:35-46 | the `type` tag of a food is "Food" and of a drink "Drink", and the two differ |
| Game.Details | task_1_and_taks_two_in_one_file.py:41-42 | a supply's line carries its kind, whose tag is "Food" exactly for food, its name and its energy |
| Game.Describe | task_1_and_taks_two_in_one_file.py:105-106 | a player's line carries its name, age and stamina, and whether it needs sustenance, which holds exactly below 100 stamina |
| Game.Controller.constructor | task_1_and_taks_two_in_one_file.py:110-112 | a new controller has no players and no supplies |
| Game.Controller.AddPlayers | task_1_and_taks_two_in_one_file.py:114-120 | the player list grows by exactly the admitted players, in order; the names returned are theirs; supplies are untouched |
| Game.Controller.AddSupplies | task_1_and_taks_two_in_one_file.py:122-124 | the supply list grows by every argument, in order, repeats included |
| Game.Controller.Sustain | task_1_and_taks_two_in_one_file.py:126-147 | the reply, the staminas and the supply list afterwards are those `Rules.Sustain` gives on the state before |
| Game.Controller.Consume | task_1_and_taks_two_in_one_file.py:140-146 | the player gains the supply's energy, or is set to 100 when the setter refuses the sum, and the first entry that is the supply leaves the list |
| Game.Controller.Duel | task_1_and_taks_two_in_one_file.py:149-179 | the reply and the staminas afterwards are those `Rules.Duel` gives on the staminas before |
| Game.Controller.Strike | task_1_and_taks_two_in_one_file.py:153-172 | the writes of a duel between unequal positive staminas give the reply and staminas of `Rules.Exchange`; the first write never fails, so its clamp cannot run |
| Game.Controller.NextDay | task_1_and_taks_two_in_one_file.py:181-191 | the staminas and supplies after a day are those `Rules.NextDay` gives on the state before |
| Game.Controller.WriteStamina | task_1_and_taks_two_in_one_file.py:92-96 | assigning the stamina of a listed player through the setter stores the value at that position exactly when it lies in [0, 100], otherwise raises and leaves every stamina as it was; the invariant `Valid` is kept |
| Game.Controller.DecayAll | task_1_and_taks_two_in_one_file.py:182-187 | after the first loop each stamina is the decayed value `Rules.Decay` gives for its player |
| Game.Controller.FeedAll | task_1_and_taks_two_in_one_file.py:189-191 | after the second loop the staminas and supplies are those `Rules.Feed` gives for all players in list order |
| Game.Controller.FeedPlayer | task_1_and_taks_two_in_one_file.py:190-191 | one turn of the second loop leaves the staminas and supplies `Rules.FeedOne` gives for that player |
| Game.Controller.Report | task_1_and_taks_two_in_one_file.py:193-202 | the report has one line per player, then one per supply, each in list order |

## Left out

- The demonstration script at the end of the file (lines 205-222) is not part of this model. It only prints the results of a few calls.
- The exact text of messages, `details`, `__str__` and `str(controller)` is left out. Replies are `SustainResult`/`DuelResult` values and report lines are `Line` values, so number formatting is not modelled.
- The abstract base class machinery is left out, and so is the difference between exception classes (`ValueError` versus `Exception`). Kinds are the `Kind` datatype; raised errors are `Error` values.
- Stamina and energy are exact reals. IEEE rounding of `/ 2` and of the sums is not modelled.
- Age is an integer, so `int(age * 2)` is `2 * age`. A fractional age is not modelled.
- A player name that matches no listed player raises `IndexError` in the source. Here it is the explicit error `NoSuchPlayer`, raised at the same point in the control flow.
- The class-level name set is an explicit `Registry` object passed to `Player.Create`.
- Entities.Supply: `name` and `energy` are constants. Reassigning them through their setters after construction is not modelled, so a drink's energy is 15 only as it is built.
- Entities.Player: `name` and `age` are constants. Their setters are only called by the constructor, so a later reassignment through them is not modelled.
- Game.Controller: every method that changes state requires the invariant `Valid`: each listed player is listed once and every listed player and supply passed its checks. `add_player` and the setters maintain this. Direct edits of the public lists from outside the controller are not modelled.
- Game.Controller.AddPlayers requires its arguments to be valid players. In the source every `Player` object is valid, because the setters reject anything else.
- Concurrency is not considered: the source is single-threaded.
