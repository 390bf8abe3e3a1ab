# Life-rhythm economy in Dafny

A model of the game economy behind the *lifeRythm* browser sequencer
(`script.js`). Each row of the grid is an everyday action (work, eat, read, sleep…).
A playhead sweeps the grid's eight columns, and every active note it passes
triggers its action. Each triggered action changes three attributes: money,
knowledge and desire. Knowledge unlocks further actions, and each unlock can
raise two secondary attributes:
- efficiency: how many actions may share a column;
- patience: how long a run of notes one row may hold.

Each full sweep of the playhead is a day. At the end of a day, desire is paid
for out of money. The game ends in bankruptcy, or when sixty days are done.

Modules, in dependency order:

- `Actions`:
  - the action enum and the sixteen-action catalogue (`ACTION_TYPES`);
  - the three starters;
  - the effect table (`ACTION_EFFECTS`).
- `Attributes`: the player record (`playerStats`) and what one triggered action does to it:
  - a negative effect skips an attribute that is exactly 0;
  - the stock gamble moves positive money by a rounded swing of at most ten percent.
- `NoteGrid`:
  - the note data, as one set of active columns per action;
  - the patience run check (`checkPatienceLimit`);
  - the column occupancy count;
  - the cell toggle (`toggleNote`), with its two limits.
- `Tally`:
  - the per-action trigger counts, kept in first-trigger order;
  - the most-triggered action (`getMostTriggeredAction`).
- `Session`:
  - the whole game state;
  - its well-formedness invariant: a valid roster, both limits respected, no notes outside the roster;
  - the player's toggle on that state.
- `UnlockLadder`:
  - the knowledge requirement (`calculateKnowledgeRequirement`);
  - the bonus predicates (`shouldIncreaseEfficiency` / `shouldIncreasePatience`);
  - the random pick (`getNextUnlockableAction`);
  - the roster append (`addAction`);
  - the chained automatic unlock (`updateUnlockButtonState`).
- `Economy`:
  - a triggered note (the attribute block of `playSound`);
  - a column trigger (`triggerColumnNotes`);
  - the day boundary in `animatePlayhead`: desire tax, bankruptcy, completion.
- `Reset`: `resetPlayCount` together with the preset notes (`initPresetNotes`).

Randomness is passed in as parameters:
- the unlock pick is a function `draw` from the roster size to a number, which is reduced modulo the number of available actions;
- the stock gamble is a real `swing` in [-0.1, 0.1].

Where the code and its comments or documentation differ, the model follows the code:
- Bankruptcy is checked only when desire is positive, and only for money strictly below 0.
- Desire can become negative: a positive desire of 1 followed by 睡觉 (-2) gives -1. The day boundary then leaves it alone.
- The bonus predicates count unlocks as `roster size - 2`, although the roster starts with three actions. The knowledge requirement counts from three. As a result:
  - efficiency rises at roster sizes 5, 8, 11 and 14;
  - patience rises at sizes 7 and 12.
- `addAction` re-runs the unlock check itself, and its caller then runs it again. Both runs are one chain of unlocks, because a second run right after the first changes nothing.

## Model

| member | source | states |
|---|---|---|
| Actions.CatalogShape | script.js:36-40 | The catalogue holds sixteen distinct actions: exactly every action except 冲咖啡, which has an effect but can never be unlocked. |
| Actions.Effects | script.js:351-369 | Every action has a non-empty effect entry naming each attribute at most once, so the order effects are applied in does not matter. Only 工作, 吃饭 and 炒股 touch money, never by less than -1, and only 上厕所 lowers knowledge. |
| Actions.DeltaOf | script.js:351-369 | The change an effect entry makes to an attribute: 0 when the entry does not name it, otherwise the one delta it lists. |
| Attributes.Adjusted | script.js:1406-1415 | One attribute change adds the delta, except that a negative delta leaves an attribute at exactly 0 at 0. An attribute at 0 never goes negative, and a non-negative one stays non-negative under a delta of at least -1. |
| Attributes.ApplyEffects | script.js:1399-1417 | Applying an entry changes each named attribute by its delta, except that a negative delta leaves an attribute at exactly 0 unchanged. Efficiency and patience are untouched. |
| Attributes.ApplyAction | script.js:1395-1435 | Per attribute, a triggered action gives its table effect with the zero guard. For 炒股, positive money then moves by the rounded swing; money of 0 or less is not gambled. |
| Attributes.StockChange | script.js:1424-1426 | The gamble's money change is `money * swing` rounded as `Math.round` does: the integer in (x - 0.5, x + 0.5]. |
| Attributes.StockChangeBounded | script.js:1421-1427 | With a swing in [-0.1, 0.1], the rounded gamble on positive money lies between the -10% and the +10% outcomes, and so never loses or gains more than that money. |
| Attributes.ApplyActionKeepsMoney | script.js:1399-1435 | Non-negative money stays non-negative through any triggered action. |
| Attributes.ZeroNeverGoesNegative | script.js:1406-1412 | An attribute at exactly 0 is never pushed below 0 by any action. |
| Attributes.SleepCanMakeDesireNegative | script.js:1406-1414 | The zero guard does not stop a positive attribute going negative: desire 1, then 睡觉, gives desire -1. |
| NoteGrid.RunLengthIsMaximal | script.js:695-709 | The run length computed through a column is the length of the longest block of active cells containing it once it is set. That block exists, and no such block is longer. |
| NoteGrid.BlockWithinRuns | script.js:695-709 | Every block of active cells through the column lies between the first inactive cells the two scans stop at. |
| NoteGrid.PatienceExceeded | script.js:686-713 | The patience test in functional form: it holds exactly when the cell is inactive and some block through it, once set, is longer than patience. |
| NoteGrid.CheckPatienceLimit | script.js:686-713 | The scan reports a violation exactly when the cell is inactive and activating it would create a block through it longer than patience. |
| NoteGrid.ActiveIn | script.js:720 | The actions counted in a column are exactly the roster actions active in it. The count is at most the roster size. |
| NoteGrid.ActiveInOneRowChanged | script.js:716-759 | Changing one row moves a column's count by at most one, in the direction of that row's change at the column. |
| NoteGrid.Toggle | script.js:716-759 | An active cell is cleared. An inactive one is refused when the column is full or patience would be exceeded, and is set otherwise. Refusals change nothing, and no other cell changes. |
| NoteGrid.TogglePreservesLimits | script.js:716-759 | After any toggle, no column holds more than efficiency actions and no row holds a block longer than patience. |
| Session.ToggleNote | script.js:716-759 | A toggle changes only the note grid: attributes, day, roster and counts are untouched. |
| Session.ToggleNotePreservesWellFormed | script.js:716-759 | A toggle keeps the whole session well formed. |
| Tally.Bump | script.js:1672-1675 | Triggering an action adds one to its count and to no other. It adds the action as a key if new, and keeps the existing entry order. |
| Tally.Zeroed | script.js:1753-1755 | Resetting the counts keeps every entry and its order and sets every count to 0. |
| Tally.MostTriggered | script.js:3191-3203 | When some count is positive, the result's entry holds the highest count, and every earlier entry holds a smaller one; its count is positive. With no positive count the result is the first catalogue action. |
| UnlockLadder.KnowledgeRequirement | script.js:311-323 | The requirement is 0 exactly for the first three roster sizes and at least 10 from the fourth on. |
| UnlockLadder.KnowledgeRequirementMonotone | script.js:311-323 | The requirement never decreases as the roster grows, and it strictly increases once past the three free actions. |
| UnlockLadder.KnowledgeRequirementStep | script.js:311-323 | From size 3 on, each further action raises the requirement by 20 times (size - 1). |
| UnlockLadder.ShouldIncreaseEfficiency | script.js:2742-2747 | The efficiency bonus is due first at two actions and then at every third roster size after that, and never below two. |
| UnlockLadder.ShouldIncreasePatience | script.js:2750-2756 | The patience bonus is due first at seven actions and then at every fifth roster size after that, and never earlier. |
| UnlockLadder.BonusSchedule | script.js:2742-2756 | For roster sizes 4 to 16, efficiency rises exactly at 5, 8, 11 and 14, and patience exactly at 7 and 12. |
| UnlockLadder.Remaining | script.js:1881-1885 | The available actions are exactly the catalogue actions not yet in the roster, without repeats. |
| UnlockLadder.NextUnlockable | script.js:1880-1894 | A pick is always a catalogue action not yet unlocked. There is no pick exactly when every catalogue action is unlocked. |
| UnlockLadder.NextUnlockableCoversAll | script.js:1888-1893 | Every action still available is picked by some random draw. |
| UnlockLadder.RosterBound | script.js:1911 | A valid roster is never longer than the catalogue. While it is shorter, some catalogue action is missing from it, so the size test matches availability. |
| UnlockLadder.AddAction | script.js:1782-1867 | An unlock appends the action to the roster with an empty row and leaves every other row unchanged. Attributes other than efficiency and patience, the day and the counts are untouched. |
| UnlockLadder.AddActionBonuses | script.js:1791-1805 | Efficiency and patience each rise by one exactly when their bonus predicate holds for the new roster size, and are otherwise unchanged. |
| UnlockLadder.AddActionPreservesWellFormed | script.js:1782-1873 | Unlocking a catalogue action not yet in the roster keeps the session well formed, including both limits after the bonuses. |
| UnlockLadder.UnlockAll | script.js:1903-1944 | The chained unlock only extends the roster, with empty new rows. It does not spend knowledge or touch money, desire, day or counts, and never lowers efficiency or patience. |
| UnlockLadder.UnlockAllWellFormed | script.js:1903-1944 | The chained unlock keeps the session well formed. It stops only when all actions are unlocked or knowledge is below the next requirement. |
| UnlockLadder.UnlockAllIdempotent | script.js:1873 | A second unlock check right after the first changes nothing, so the nested and the outer check together do what one chain does. |
| Economy.TriggerOne | script.js:1672-1678 | A triggered note counts its action once and leaves money, knowledge and desire as the action's effects (with the zero guard and the gamble) make them, since the unlock check spends nothing. It keeps day, rows and the roster prefix, never lowers efficiency or patience, keeps well-formedness, and keeps money non-negative. |
| Economy.TriggerIfActive | script.js:1670-1678 | A snapshot entry is counted exactly when its cell is still active at its turn, and it keeps the day, the existing roster and rows, well-formedness and non-negative money. |
| Economy.TriggerEach | script.js:1668-1685 | Triggering a column's snapshot keeps the day, the existing roster and rows, well-formedness and non-negative money. |
| Economy.TriggerEachCounts | script.js:1668-1676 | Each action of the snapshot active in the column is counted once, and nothing else is counted. |
| Economy.TriggerColumn | script.js:1621-1687 | Triggering a column keeps the session well formed and money non-negative, and leaves existing rows unchanged. |
| Economy.TriggerColumnCounts | script.js:1621-1676 | A column trigger counts exactly the roster actions active in that column, once each. |
| Economy.DayStep | script.js:1561-1594 | The day counter advances. Positive desire is paid from money and cleared; if money drops below 0 it is set to 0 and the game is bankrupt. Otherwise the game completes exactly when the counter reaches 60. |
| Economy.DayStepKeepsMoney | script.js:1568-1584 | From non-negative money, a day never leaves money negative; when desire is positive it leaves money minus desire or 0, whichever is larger. It keeps the session well formed. |
| Economy.CompletesOnLastDay | script.js:1589-1594 | A game that is not bankrupt completes on the step from day 59, and not earlier. |
| Economy.BankruptcyExample | script.js:1568-1584 | Money 5 and desire 8 at the day boundary give bankruptcy with money 0. |
| Economy.NegativeDesireSurvivesDay | script.js:1568 | Negative desire is not cleared by the day boundary. |
| Reset.ResetGame | script.js:1703-1756 | A reset restores the default attributes, day 0 and the three starters. Every row is cleared except the presets, and every count is zeroed but kept in order. |
| Reset.PresetLimits | script.js:2685-2739 | The preset notes respect the default limits: one action per column, and no run longer than three. |
| Reset.ResetWellFormed | script.js:1703-1756 | A reset session is well formed. |
| Reset.PresetGameWellFormed | script.js:1711-1744 | Any session with the default attributes, the three starters and exactly the preset notes is well formed. |
| Reset.ResetIdempotent | script.js:1703-1756 | Resetting a reset game gives the same game again, whatever the unlock draws. |

## Left out

- Rendering, DOM cells, messages, animations and the settlement screen are left out. The column count is taken from the note data of roster rows, which the grid cells mirror.
- Audio is left out: buffers, gains, the background rhythm and the single-note preview a toggle plays without updating attributes. `playSound` returns early when the audio context is not running or a buffer is missing. The model assumes audio is ready, so every triggered note updates attributes.
- Timing is left out:
  - which column the playhead is on, derived from the audio clock;
  - the 0.05 / 0.9 thresholds that detect a new day;
  - the `lastTriggeredColumn` guard against triggering the same column twice.
  `TriggerColumn` and `DayStep` are the events those checks fire. One consequence of the timing is out of the model's reach. `triggerColumnNotes` runs from a separate `requestAnimationFrame` callback (script.js:1547-1554). `stopPlayback` cancels only the main animation frame (script.js:2826-2830). So a column trigger scheduled in the frame that goes bankrupt can still run afterwards: 工作 at column 0 would lift the clamped money from 0 to 2. The model treats a bankrupt day as final.
- Playback state (play, pause, stop) and the `try`/`catch` recovery are left out.
- Attributes.StockChange: the float product `money * swing` is idealised as an exact real. `Math.random()` is the parameter `swing`.
- UnlockLadder.NextUnlockable: `Math.floor(Math.random() * n)` is modelled as `draw % n` for an arbitrary natural `draw`. This covers every index but does not model the distribution.
- The manual unlock button path (script.js:2635-2660) and the settlement statistics other than the most-triggered action are left out. They are outside the economy core.
