# Cox Mega Scale, modelled in Dafny

Cox Mega Scale is a RuneLite plugin for the Chambers of Xeric raid. It does three things.

- **Scouting.** When the raids plugin scouts a raid, this plugin judges the raid "desirable" or not. A raid is desirable when:
  - the user selected at least one room and every selected room is in the raid (ignoring case);
  - the number of counted rooms matches the room count the user chose;
  - the start order the user chose is ANY, or equals the first three characters of the layout code (the whole code when shorter), upper-cased.
  Empty room slots never count, and neither do the rooms "farming", "scavengers", "end", "start" and "empty".
- **Menu steering.** Inside the raid it edits the menu entries on the raid's "steps" so that a left click does the right thing. In an undesirable raid "Reload" becomes the default action. In a desirable raid "Walk here" becomes the default, and "Climb" and "Reload" are deprioritised.
- **Supplies panel.** It shows how many overloads, fish and golpar the party needs for its size, in a panel sized to fit its widest line.

The project models these as follows.

- `wrappers.dfy` (`Wrappers`): the `Option` type that stands in for Java's nullable references.
- `strings.dfy` (`Strings`): the `String` operations the plugin uses, on ASCII. These are case conversion, `contains`, and the decimal form of an `int` together with a parser that reads it back.
- `config.dfy` (`CoxMegaScaleConfig`): the configuration record, its defaults, and the `RoomCount` enumeration with its display names.
- `scouting.dfy` (`RaidScouting`): the pure matcher. This is the room filter, the selected-room list (`getSelectedRooms`, kept as a method that appends in flag order), the room-count and start-order tests, and the desirability verdict, with the proof that the verdict ignores the case of the raid's room names.
- `menu_order.dfy` (`MenuOrder`): removing the first occurrence of an element from a list, and moving an element to the end.
- `plugin.dfy` (`CoxMegaScale`): the plugin as a class. Its three fields are updated by the event handlers. Menu entries are objects whose deprioritised flag the handler sets, and the client's menu is a field that the menu handler replaces.
- `supplies.dfy` (`SuppliesCalculation`): the three formulas in Java `int` arithmetic, the panel's lines and width, and the overlay as a class whose render method clears and refills the panel.

Host services are parameters of the handlers:
- Tag stripping is a function `removeTags: string -> string`.
- The font's text width is a function `stringWidth: string -> Int32`.
- The value of the in-raid varbit is an `int` argument.
- The party size is an `Int32` argument.

## Model

| member | source | states |
|---|---|---|
| Strings.Contains | coxmegascale/CoxMegaScalePlugin.java:292 | `contains` holds exactly when the substring occurs at some position of the text |
| Strings.Lower | coxmegascale/CoxMegaScalePlugin.java:170 | lower-casing keeps the length and maps each character to its lower-case form (ASCII) |
| Strings.Upper | coxmegascale/CoxMegaScalePlugin.java:155 | upper-casing keeps the length and maps each character to its upper-case form (ASCII) |
| Strings.LowerIdempotent | coxmegascale/CoxMegaScalePlugin.java:170 | lower-casing an already lower-cased name changes nothing, so the lower-cased name is a normal form |
| Strings.DecimalRoundTrip | coxmegascale/overlays/SuppliesCalculationOverlay.java:75-78 | parsing the decimal form of any int gives that int back |
| Strings.IntToDecimal | coxmegascale/overlays/SuppliesCalculationOverlay.java:75-78 | `String.valueOf(int)`: a leading minus sign exactly for negative values, digits otherwise; DecimalRoundTrip and DecimalInjective state that the text determines the value |
| Strings.DecimalInjective | coxmegascale/overlays/SuppliesCalculationOverlay.java:75-78 | two ints have the same decimal form if and only if they are equal |
| CoxMegaScaleConfig.DefaultValues | coxmegascale/CoxMegaScaleConfig.java:22-220 | by default the start order is ANY, all eleven include flags are off, the room count is ANY and all three overlays are on |
| CoxMegaScaleConfig.IncludeFlags | coxmegascale/CoxMegaScaleConfig.java:28-155 | the eleven include items of the configuration record `Config`, in declaration order from Mystics to Muttadiles; the record `Default` holds the declared defaults that DefaultValues states |
| CoxMegaScaleConfig.RoomCount.ToString | coxmegascale/CoxMegaScaleConfig.java:172-190 | the display name each constant is declared with; RoomCountNamesDistinct states the three names and that no two constants share one |
| CoxMegaScaleConfig.RaidStartOrder.ToString | coxmegascale/CoxMegaScalePlugin.java:161-162 | `selectedStartOrder.toString()` of a definite order: the string the start order code is compared with, as StartOrderMatchesIff states |
| CoxMegaScaleConfig.RoomCountNamesDistinct | coxmegascale/CoxMegaScaleConfig.java:172-190 | the three room-count constants print as "Any", "5" and "6", and two constants print alike only if they are the same |
| RaidScouting.StartOrderMatchesIff | coxmegascale/CoxMegaScalePlugin.java:155-162 | ANY always matches; any other order matches exactly when its string has the length of the code's first three characters (the whole code when shorter) and equals them upper-cased |
| RaidScouting.StartOrderCode | coxmegascale/CoxMegaScalePlugin.java:155 | the layout code's first three characters, or the whole code when shorter, upper-cased; StartOrderMatchesIff states its length and characters |
| RaidScouting.StartOrderMatches | coxmegascale/CoxMegaScalePlugin.java:157-162 | ANY, or equality of the order's string with the start order code, as StartOrderMatchesIff states character by character |
| RaidScouting.CountedRoomNames | coxmegascale/CoxMegaScalePlugin.java:165-172 | a name is among the raid's counted rooms exactly when some slot holds a room of that name whose lower-cased name is not one of the five ignored names; empty slots never count |
| RaidScouting.Counts | coxmegascale/CoxMegaScalePlugin.java:169-170 | the two filters: a slot counts when it holds a room and its lower-cased name is not ignored; CountedRoomNames and InsertedSlotCount state what this keeps and drops |
| RaidScouting.TotalRooms | coxmegascale/CoxMegaScalePlugin.java:175 | `roomNames.size()`; InsertedSlotCount states that only counted slots add to it and CountedUpToCase that case does not change it |
| RaidScouting.CountedRoomNamesAppend | coxmegascale/CoxMegaScalePlugin.java:168-172 | the filter keeps the raid's order: filtering two lists joined equals joining their filtered lists |
| RaidScouting.InsertedSlotCount | coxmegascale/CoxMegaScalePlugin.java:165-175 | adding an empty slot or an ignored room anywhere changes neither the counted names nor the total; adding a counted room adds one to the total |
| RaidScouting.RoomCountMatches | coxmegascale/CoxMegaScalePlugin.java:262-278 | ANY accepts every total, FIVE and SIX accept only 5 and 6, as RoomCountMatchesItsName states |
| RaidScouting.RoomCountMatchesItsName | coxmegascale/CoxMegaScalePlugin.java:262-278 | FIVE accepts only 5 and SIX only 6: a definite room count accepts exactly the totals whose decimal form is its display name |
| RaidScouting.SelectMembers | coxmegascale/CoxMegaScalePlugin.java:209-260 | a name is selected exactly when it is the name of a flag that is on, and there are no more selected names than flags |
| RaidScouting.SelectEmpty | coxmegascale/CoxMegaScalePlugin.java:209-260 | nothing is selected if and only if every flag is off |
| RaidScouting.SelectOrdered | coxmegascale/CoxMegaScalePlugin.java:209-260 | when the names are distinct, the selection lists names in the order of their flags |
| RaidScouting.RoomNamesDistinct | coxmegascale/CoxMegaScalePlugin.java:214-257 | the eleven room names added by the selection are pairwise different |
| RaidScouting.SelectedRoomsSpec | coxmegascale/CoxMegaScalePlugin.java:209-260 | the selected rooms are exactly the names of the enabled flags, in the fixed order Mystics to Muttadiles, without duplicates, at most eleven of them, and none exactly when no flag is on |
| RaidScouting.SelectEleven | coxmegascale/CoxMegaScalePlugin.java:212-259 | the selection among eleven flags is the eleven one-name-or-nothing pieces joined in flag order |
| RaidScouting.SelectedRoomsListed | coxmegascale/CoxMegaScalePlugin.java:214-256 | the selected rooms, written out: "Mystics" if that flag is on, then "Shamans" if on, and so on through "Muttadiles" |
| RaidScouting.SelectedRooms | coxmegascale/CoxMegaScalePlugin.java:209-260 | the reference definition of the selection; SelectedRoomsSpec states membership, order, no duplicates and emptiness, and GetSelectedRooms is proved to compute it |
| RaidScouting.AddIfIncluded | coxmegascale/CoxMegaScalePlugin.java:214-217 | one conditional append: the list grows by the name exactly when the flag is on |
| RaidScouting.GetSelectedRooms | coxmegascale/CoxMegaScalePlugin.java:209-260 | the eleven conditional appends produce exactly the selected rooms |
| RaidScouting.IsDesirable | coxmegascale/CoxMegaScalePlugin.java:177-206 | the verdict stored in `desirableRaidFound`; DesirableIff characterises it and DesirableIgnoresRoomCase shows it ignores the case of the raid's room names |
| RaidScouting.LowerSet | coxmegascale/CoxMegaScalePlugin.java:181-187 | the lower-cased names collected into a set; DesirableIff states the resulting `containsAll` as "each selected room matches a raid room ignoring case" |
| RaidScouting.SelectableRoomsNotIgnored | coxmegascale/CoxMegaScalePlugin.java:165 | no selectable room name, lower-cased, is one of the ignored names |
| RaidScouting.DesirableIff | coxmegascale/CoxMegaScalePlugin.java:181-206 | a raid is desirable if and only if at least one room is selected, each selected room matches a room of the raid ignoring case, the counted total matches the room count, and the start order matches |
| RaidScouting.CountedUpToCase | coxmegascale/CoxMegaScalePlugin.java:168-182 | two raids whose room names differ only in case have the same room total and the same lower-cased counted names |
| RaidScouting.DesirableIgnoresRoomCase | coxmegascale/CoxMegaScalePlugin.java:168-189 | a raid whose room names differ from another's only in case gets the same verdict |
| RaidScouting.NoSelectionNeverDesirable | coxmegascale/CoxMegaScalePlugin.java:195-206 | with no include flag on, no raid is desirable |
| RaidScouting.DefaultNeverDesirable | coxmegascale/CoxMegaScaleConfig.java:35-158 | under the default configuration no scouted raid is ever desirable |
| RaidScouting.FewerRoomsStillDesirable | coxmegascale/CoxMegaScalePlugin.java:185-189 | turning include flags off (keeping at least one on, with the same count and start order) never turns a desirable raid undesirable |
| MenuOrder.IndexOf | coxmegascale/CoxMegaScalePlugin.java:360 | the position found holds the element and no earlier position does |
| MenuOrder.RemoveFirst | coxmegascale/CoxMegaScalePlugin.java:360 | `List.remove(Object)`: the list without the first occurrence, unchanged when the element is absent; MoveToEndSpec states the result |
| MenuOrder.MoveToEnd | coxmegascale/CoxMegaScalePlugin.java:360-361 | remove then add: MoveToEndSpec proves it a permutation with the element last and the rest in order |
| MenuOrder.MoveToEndSpec | coxmegascale/CoxMegaScalePlugin.java:360-361 | remove-then-add permutes the list: the same elements with the same multiplicities and the same length, the element last, and the other elements in their original order with the first occurrence left out |
| MenuOrder.MoveToEndOfLast | coxmegascale/CoxMegaScalePlugin.java:360-361 | an element that is already last and occurs only there stays put |
| CoxMegaScale.DeprioritizedAfterSpec | coxmegascale/CoxMegaScalePlugin.java:281-316 | outside the raid, off the steps, or for options other than "climb" and "reload", the flag is unchanged; "climb" on the steps is always deprioritised; "reload" on the steps is deprioritised exactly when the raid is desirable |
| CoxMegaScale.DeprioritizedAfterIdempotent | coxmegascale/CoxMegaScalePlugin.java:292-315 | handling the same entry twice has the same effect as handling it once |
| CoxMegaScale.DeprioritizedAfter | coxmegascale/CoxMegaScalePlugin.java:283-315 | the per-entry rule of the entry handler; DeprioritizedAfterSpec states each case and DeprioritizedAfterIdempotent that it is idempotent |
| CoxMegaScale.Normalized | coxmegascale/CoxMegaScalePlugin.java:289-290 | `Text.removeTags(..).toLowerCase()` with the host's tag stripper as a parameter; OnMenuEntryAdded and LastStepsEntrySpec apply the rules to these texts |
| CoxMegaScale.OnSteps | coxmegascale/CoxMegaScalePlugin.java:292 | `target.contains("steps")`, which Strings.Contains characterises as an occurrence at some position |
| CoxMegaScale.IsStepsEntry | coxmegascale/CoxMegaScalePlugin.java:338-350 | the test inside the menu loop: the entry is on the steps and has the wanted option; LastStepsEntrySpec states the entry found passes it and none after it does |
| CoxMegaScale.LastStepsEntry | coxmegascale/CoxMegaScalePlugin.java:333-353 | the variable the loop leaves set: the last entry on the steps with the wanted option, as LastStepsEntrySpec states |
| CoxMegaScale.MenuTarget | coxmegascale/CoxMegaScalePlugin.java:355-374 | the entry moved to the end: the last "walk here" on the steps when desirable, the last "reload" on the steps otherwise |
| CoxMegaScale.LastStepsEntrySpec | coxmegascale/CoxMegaScalePlugin.java:333-353 | nothing is found exactly when no entry on the steps has the wanted option; otherwise the entry found is on the steps, has the wanted option, and no such entry comes after it |
| CoxMegaScale.RewrittenMenuSpec | coxmegascale/CoxMegaScalePlugin.java:355-374 | the rewritten menu has the same entries as before, ends with the last "walk here" (desirable) or "reload" (undesirable) entry on the steps, and keeps the other entries in order |
| CoxMegaScale.MenuEntry.constructor | coxmegascale/CoxMegaScalePlugin.java:288-315 | a menu entry object with its option and target text and its deprioritised flag, which the entry handler sets in place |
| CoxMegaScale.Client.constructor | coxmegascale/CoxMegaScalePlugin.java:326-372 | the client object whose menu the menu handler reads and replaces |
| CoxMegaScale.CoxMegaScalePlugin.Valid | coxmegascale/CoxMegaScalePlugin.java:147-207 | a bare invariant that the constructor and every handler keep, relied on by no other contract: `desirableRaidFound` is set only while a scouted raid is stored |
| CoxMegaScale.CoxMegaScalePlugin.constructor | coxmegascale/CoxMegaScalePlugin.java:67-70 | a new plugin has no raid, is outside the raid and has found nothing desirable |
| CoxMegaScale.CoxMegaScalePlugin.ShutDown | coxmegascale/CoxMegaScalePlugin.java:121-124 | shutting down clears the raid, the in-raid flag and the desirability |
| CoxMegaScale.CoxMegaScalePlugin.OnVarbitChanged | coxmegascale/CoxMegaScalePlugin.java:128-144 | an in-raid value of 1 while outside sets only the in-raid flag; any other value while inside clears the flag, the raid and the desirability; another varbit, or a value that agrees with the flag, changes nothing |
| CoxMegaScale.CoxMegaScalePlugin.OnRaidScouted | coxmegascale/CoxMegaScalePlugin.java:147-207 | the scouted raid becomes the current raid, the desirability becomes the matcher's verdict on it, and the in-raid flag is unchanged |
| CoxMegaScale.CoxMegaScalePlugin.OnRaidReset | coxmegascale/CoxMegaScalePlugin.java:378-383 | a reset clears the raid and the desirability and leaves the in-raid flag alone |
| CoxMegaScale.CoxMegaScalePlugin.OnMenuEntryAdded | coxmegascale/CoxMegaScalePlugin.java:281-316 | the entry's deprioritised flag becomes what the per-entry rule gives for its lower-cased, tag-free option and target; nothing else changes |
| CoxMegaScale.CoxMegaScalePlugin.OnMenuOpened | coxmegascale/CoxMegaScalePlugin.java:319-375 | outside the raid, or when no wanted entry is on the steps, the menu is not set; otherwise it is set to the old menu with the last wanted entry moved to the end |
| SuppliesCalculation.Wrap | coxmegascale/overlays/SuppliesCalculationOverlay.java:65-66 | int arithmetic gives the result congruent to the exact value modulo 2^32, and the exact value when that fits |
| SuppliesCalculation.SaturatingCast | coxmegascale/overlays/SuppliesCalculationOverlay.java:64 | the cast back to int keeps values that fit and sends the others to the nearest end of the range |
| SuppliesCalculation.CeilQuarter | coxmegascale/overlays/SuppliesCalculationOverlay.java:64 | the rounded-up quarter q satisfies 4q >= x > 4(q - 1) |
| SuppliesCalculation.Overloads | coxmegascale/overlays/SuppliesCalculationOverlay.java:64 | the overload count with the saturating cast; OverloadsIsCeiling states it is the exact ceiling in its range |
| SuppliesCalculation.Fish | coxmegascale/overlays/SuppliesCalculationOverlay.java:65 | the fish count in wrapping `int` arithmetic; FishExact states the range where it is 20n + 20 |
| SuppliesCalculation.Golpar | coxmegascale/overlays/SuppliesCalculationOverlay.java:66 | three times the overload count in wrapping `int` arithmetic; GolparExact states where it is exact |
| SuppliesCalculation.OverloadsIsCeiling | coxmegascale/overlays/SuppliesCalculationOverlay.java:64 | within its range the overload count is the ceiling of (5n + 5) / 4; above it the count is the largest int and below it the smallest |
| SuppliesCalculation.FishExact | coxmegascale/overlays/SuppliesCalculationOverlay.java:65 | the fish count equals 20n + 20 if and only if the party size is in the range where that sum fits |
| SuppliesCalculation.GolparExact | coxmegascale/overlays/SuppliesCalculationOverlay.java:66 | in its range the golpar count is three times the overload count, hence a multiple of three |
| SuppliesCalculation.SuppliesExact | coxmegascale/overlays/SuppliesCalculationOverlay.java:64-66 | for every party size from 0 to 107374181 all three counts are the exact formulas |
| SuppliesCalculation.FishWrapsAtIntMax | coxmegascale/overlays/SuppliesCalculationOverlay.java:65 | at the largest int party size the fish sum is ten times 2^32 and shows as 0 |
| SuppliesCalculation.PanelLinesLayout | coxmegascale/overlays/SuppliesCalculationOverlay.java:106-146 | the panel holds the title "Supplies Calculation" and then the lines labelled party size, overloads, fish and golpar, in that order |
| SuppliesCalculation.PanelLinesValues | coxmegascale/overlays/SuppliesCalculationOverlay.java:75-78 | each line's right text reads back as the number it reports |
| SuppliesCalculation.PanelLines | coxmegascale/overlays/SuppliesCalculationOverlay.java:106-146 | the title and the four labelled lines the panel receives; PanelLinesLayout and PanelLinesValues state their order, labels and values |
| SuppliesCalculation.SuppliesLines | coxmegascale/overlays/SuppliesCalculationOverlay.java:61-146 | the panel lines for a party size, with the three counts; Render sets the children to exactly these |
| SuppliesCalculation.SuppliesValuesDistinguishable | coxmegascale/overlays/SuppliesCalculationOverlay.java:76-77 | two overload counts or two fish counts are shown with the same text only when they are equal |
| SuppliesCalculation.Max4 | coxmegascale/overlays/SuppliesCalculationOverlay.java:93-96 | the widest of four widths is at least each of them and equal to one of them |
| SuppliesCalculation.PanelWidth | coxmegascale/overlays/SuppliesCalculationOverlay.java:93-100 | the panel width in `int` arithmetic; PanelWidthFits states it fits every line and equals one of them |
| SuppliesCalculation.PanelWidthFits | coxmegascale/overlays/SuppliesCalculationOverlay.java:93-100 | for widths a font can report, the panel is at least the title width plus 20 and at least every label width plus every value width plus 30, and it equals one of these |
| SuppliesCalculation.SuppliesCalculationOverlay.Render | coxmegascale/overlays/SuppliesCalculationOverlay.java:52-147 | disabled: nothing changes and nothing is rendered; enabled: the children are cleared and become exactly the supplies lines, the preferred width becomes the panel width of the measured texts, and the preferred height is kept |

## Left out

- Drawing: colours, position, layer, priority and the panel's own rendering (`super.render`, `Graphics2D`). Render returns whether it rendered, in place of the dimension the panel would report.
- The points overlay and the drop-chance overlay. They are display only, and the points total they show comes from code that is not part of this model.
- `Utils`, the `PartySizeChanged` event and its debug-log handler, `onPluginChanged` (logging only) and the empty `onGameTick`.
- `startUp` and the overlay-manager calls in `shutDown`. They only register and unregister overlays with the host; `ShutDown` models the field resets.
- Java nulls: the model assumes a non-null scouted raid, layout, room names and configuration values; only an empty room slot may be null. In the source a null raid or layout makes `onRaidScouted` throw after `currentRaid` has been set (a null raid leaves `desirableRaidFound` as it was, a state `CoxMegaScalePlugin.Valid` excludes), a null room name makes it throw in the room filter, and a null room count makes `doesRoomCountMatch` return false.
- Logging, the event bus, dependency injection and the try/catch around rendering.
- `Text.removeTags`, `FontMetrics.stringWidth`, `client.getVarbitValue` and the party size: host services, modelled as parameters (see above).
- `Varbits.IN_RAID` is a host constant. It is modelled as 5432, the identifier the RuneLite API gives it.
- `RaidStartOrder` is not part of this model. It is reduced to ANY or a definite order known by the string its `toString` gives.
- Case conversion is ASCII only. Java's locale-sensitive `toLowerCase`/`toUpperCase` can act differently on other letters.
- SuppliesCalculation.Overloads: the source computes the quotient in `double`. The model uses exact integers. For every `int` party size the `double` products, sum and division by four are exact, so only the saturating cast back to `int` matters, and that cast is modelled.
- RaidScouting.RoomCountMatches: the source's final `return false` is reached only by a null room count, which the model's type excludes.
- CoxMegaScale.MenuEntry: the source's `ArrayList.remove` compares entries with `equals`. The model compares them by identity, on the assumption that the host's menu entries do not override `equals`.
- CoxMegaScale.CoxMegaScalePlugin.OnMenuOpened: the source reads the client's menu array and builds a new list from it. The model reads and replaces the client's `menuEntries` sequence, and `rewritten` reports whether the menu was set.
- SuppliesCalculation.SuppliesCalculationOverlay.Render: the source clears the panel's child list, sets its preferred size and then adds the children one by one to the same list. The model writes the new list back to the field in one step once it is built.
- SuppliesCalculation.PanelWidthFits: proved only for widths from 0 to 2^24. For larger widths the sums wrap like any Java `int` sum, as `PanelWidth` computes.
