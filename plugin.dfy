/**
  The plugin object and its event handlers: it remembers whether the player is
  inside the raid chambers, the last scouted raid and whether that raid was
  desirable, and it uses the last two to reorder and deprioritise the menu
  entries on the raid's "steps" so that a left click reloads an undesirable
  raid and does not leave a desirable one.
 */
module CoxMegaScale {
  import opened Wrappers
  import opened Strings
  import opened CoxMegaScaleConfig
  import opened RaidScouting
  import opened MenuOrder

  /** The identifier of the varbit telling whether the player is in a raid, as the host defines it. */
  const InRaidVarbit: int := 5432

  /** A right-click menu entry: its option and target text, markup included, and its deprioritised flag. */
  class MenuEntry {
    var option: string
    var target: string
    var deprioritized: bool

    constructor (option: string, target: string)
      ensures this.option == option && this.target == target && !deprioritized
    {
      this.option := option;
      this.target := target;
      deprioritized := false;
    }
  }

  /** The client's current menu, in the order the client keeps it (the last entry is the left-click action). */
  class Client {
    var menuEntries: seq<MenuEntry>

    constructor (menuEntries: seq<MenuEntry>)
      ensures this.menuEntries == menuEntries
    {
      this.menuEntries := menuEntries;
    }
  }

  /** Text with its markup tags stripped, lower-cased; `removeTags` is the host's tag stripper. */
  function Normalized(text: string, removeTags: string -> string): string
  {
    Lower(removeTags(text))
  }

  /** Whether a normalised target names the raid's steps. */
  predicate OnSteps(target: string)
  {
    Contains(target, "steps")
  }

  // ---------------------------------------------------------------------
  // Deprioritising single entries
  // ---------------------------------------------------------------------

  /**
    The deprioritised flag an added entry ends up with, from its normalised
    option and target and the flag it had. Nothing changes outside the raid
    or away from the steps; on the steps a desirable raid deprioritises both
    "climb" and "reload", an undesirable one deprioritises "climb" and
    re-prioritises "reload".
   */
  function DeprioritizedAfter(inRaid: bool, desirable: bool, option: string, target: string, was: bool): bool
  {
    if !inRaid || !OnSteps(target) then was
    else if desirable then
      if option == "climb" || option == "reload" then true else was
    else if option == "reload" then false
    else if option == "climb" then true
    else was
  }

  /**
    Only "climb" and "reload" entries on the steps, inside the raid, are ever
    touched; "climb" is always deprioritised; "reload" is deprioritised
    exactly when the raid is desirable.
   */
  lemma DeprioritizedAfterSpec(inRaid: bool, desirable: bool, option: string, target: string, was: bool)
    ensures !(inRaid && OnSteps(target) && (option == "climb" || option == "reload")) ==>
      DeprioritizedAfter(inRaid, desirable, option, target, was) == was
    ensures (inRaid && OnSteps(target) && option == "climb") ==> DeprioritizedAfter(inRaid, desirable, option, target, was)
    ensures (inRaid && OnSteps(target) && option == "reload") ==>
      (DeprioritizedAfter(inRaid, desirable, option, target, was) <==> desirable)
  {
  }

  /** Handling the same entry twice has the effect of handling it once. */
  lemma DeprioritizedAfterIdempotent(inRaid: bool, desirable: bool, option: string, target: string, was: bool)
    ensures var once := DeprioritizedAfter(inRaid, desirable, option, target, was);
      DeprioritizedAfter(inRaid, desirable, option, target, once) == once
  {
  }

  // ---------------------------------------------------------------------
  // Finding entries in the menu
  // ---------------------------------------------------------------------

  /** Whether `e` is an entry on the steps whose normalised option is `wanted`. */
  predicate IsStepsEntry(e: MenuEntry, wanted: string, removeTags: string -> string)
    reads e
  {
    OnSteps(Normalized(e.target, removeTags)) && Normalized(e.option, removeTags) == wanted
  }

  /** The last entry on the steps with option `wanted`, if there is one. */
  function LastStepsEntry(entries: seq<MenuEntry>, wanted: string, removeTags: string -> string): Option<MenuEntry>
    reads entries
  {
    if |entries| == 0 then None
    else if IsStepsEntry(entries[|entries| - 1], wanted, removeTags) then Some(entries[|entries| - 1])
    else LastStepsEntry(entries[..|entries| - 1], wanted, removeTags)
  }

  /**
    An entry is found exactly when some entry on the steps has the wanted
    option; the entry found is such an entry, and no such entry follows it.
   */
  lemma {:induction false} LastStepsEntrySpec(entries: seq<MenuEntry>, wanted: string, removeTags: string -> string)
    ensures LastStepsEntry(entries, wanted, removeTags).None? <==>
      forall i :: 0 <= i < |entries| ==> !IsStepsEntry(entries[i], wanted, removeTags)
    ensures LastStepsEntry(entries, wanted, removeTags).Some? ==>
      exists i :: (0 <= i < |entries| && entries[i] == LastStepsEntry(entries, wanted, removeTags).value &&
        IsStepsEntry(entries[i], wanted, removeTags) &&
        forall j :: i < j < |entries| ==> !IsStepsEntry(entries[j], wanted, removeTags))
  {
    var n := |entries|;
    if n == 0 {
    } else if IsStepsEntry(entries[n - 1], wanted, removeTags) {
      assert LastStepsEntry(entries, wanted, removeTags) == Some(entries[n - 1]);
    } else {
      var init := entries[..n - 1];
      var found := LastStepsEntry(init, wanted, removeTags);
      assert LastStepsEntry(entries, wanted, removeTags) == found;
      LastStepsEntrySpec(init, wanted, removeTags);
      assert forall j :: 0 <= j < n - 1 ==> entries[j] == init[j];
      assert (forall i :: 0 <= i < n ==> !IsStepsEntry(entries[i], wanted, removeTags)) <==>
        (forall i :: 0 <= i < n - 1 ==> !IsStepsEntry(init[i], wanted, removeTags));
      if found.Some? {
        var i :| 0 <= i < n - 1 && init[i] == found.value && IsStepsEntry(init[i], wanted, removeTags) &&
          forall j :: i < j < n - 1 ==> !IsStepsEntry(init[j], wanted, removeTags);
        assert entries[i] == init[i];
        assert forall j :: i < j < n ==> !IsStepsEntry(entries[j], wanted, removeTags);
      }
    }
  }

  /**
    The entry the menu handler moves to the end: "walk here" on the steps when
    the raid is desirable, "reload" on the steps when it is not.
   */
  function MenuTarget(entries: seq<MenuEntry>, desirable: bool, removeTags: string -> string): Option<MenuEntry>
    reads entries
  {
    if desirable then LastStepsEntry(entries, "walk here", removeTags)
    else LastStepsEntry(entries, "reload", removeTags)
  }

  // ---------------------------------------------------------------------
  // The plugin
  // ---------------------------------------------------------------------

  class CoxMegaScalePlugin {
    var currentRaid: Option<Raid>
    var inRaidChambers: bool
    var desirableRaidFound: bool

    /** Only a scouted raid can be desirable. */
    ghost predicate Valid()
      reads this
    {
      desirableRaidFound ==> currentRaid.Some?
    }

    constructor ()
      ensures Valid()
      ensures currentRaid.None? && !inRaidChambers && !desirableRaidFound
    {
      currentRaid := None;
      inRaidChambers := false;
      desirableRaidFound := false;
    }

    /** Stopping the plugin forgets the raid, the raid-chambers flag and the desirability. */
    method ShutDown()
      modifies this
      ensures Valid()
      ensures currentRaid.None? && !inRaidChambers && !desirableRaidFound
    {
      currentRaid := None;
      inRaidChambers := false;
      desirableRaidFound := false;
    }

    /**
      A varbit changed; `inRaidValue` is the client's current value of the
      in-raid varbit. Entering the raid sets only the raid-chambers flag;
      leaving it clears the flag, the raid and the desirability; any other
      varbit, or no change of the flag, leaves everything as it was.
     */
    method OnVarbitChanged(varbitId: int, inRaidValue: int)
      requires Valid()
      modifies this
      ensures Valid()
      ensures varbitId != InRaidVarbit ==> unchanged(this)
      ensures varbitId == InRaidVarbit && inRaidValue == 1 && !old(inRaidChambers) ==>
        inRaidChambers && currentRaid == old(currentRaid) && desirableRaidFound == old(desirableRaidFound)
      ensures varbitId == InRaidVarbit && inRaidValue != 1 && old(inRaidChambers) ==>
        !inRaidChambers && currentRaid.None? && !desirableRaidFound
      ensures varbitId == InRaidVarbit && (inRaidValue == 1 <==> old(inRaidChambers)) ==> unchanged(this)
    {
      if varbitId == InRaidVarbit {
        var inRaid := inRaidValue == 1;
        if inRaid && !inRaidChambers {
          inRaidChambers := true;
        } else if !inRaid && inRaidChambers {
          inRaidChambers := false;
          currentRaid := None;
          desirableRaidFound := false;
        }
      }
    }

    /**
      A raid was scouted: it becomes the current raid and its desirability is
      judged against the configuration.
     */
    method OnRaidScouted(config: Config, raid: Raid)
      requires Valid()
      modifies this
      ensures Valid()
      ensures currentRaid == Some(raid)
      ensures desirableRaidFound == IsDesirable(config, raid)
      ensures inRaidChambers == old(inRaidChambers)
    {
      currentRaid := Some(raid);
      var startOrderMatches := StartOrderMatches(config.raidStartOrder, raid.layoutCode);
      var roomNames := CountedRoomNames(raid.rooms);
      var totalRooms := |roomNames|;
      var selectedRooms := GetSelectedRooms(config);
      var raidRoomSet := LowerSet(roomNames);
      var selectedRoomSet := LowerSet(selectedRooms);
      var roomsMatch := selectedRoomSet <= raidRoomSet;
      var roomCountMatches := RoomCountMatches(config.roomCount, totalRooms);
      if selectedRooms != [] && roomsMatch && roomCountMatches && startOrderMatches {
        desirableRaidFound := true;
      } else if selectedRooms != [] {
        desirableRaidFound := false;
      } else {
        desirableRaidFound := false;
      }
    }

    /** The raid ended or the player left it: the raid and its desirability are forgotten. */
    method OnRaidReset()
      requires Valid()
      modifies this
      ensures Valid()
      ensures currentRaid.None? && !desirableRaidFound
      ensures inRaidChambers == old(inRaidChambers)
    {
      currentRaid := None;
      desirableRaidFound := false;
    }

    /** A menu entry was added: inside the raid, entries on the steps get their priority set. */
    method OnMenuEntryAdded(entry: MenuEntry, removeTags: string -> string)
      requires Valid()
      modifies entry`deprioritized
      ensures Valid()
      ensures entry.deprioritized == DeprioritizedAfter(inRaidChambers, desirableRaidFound,
        Normalized(entry.option, removeTags), Normalized(entry.target, removeTags), old(entry.deprioritized))
    {
      if !inRaidChambers {
        return;
      }
      var option := Normalized(entry.option, removeTags);
      var target := Normalized(entry.target, removeTags);
      if OnSteps(target) {
        if desirableRaidFound {
          if option == "climb" || option == "reload" {
            entry.deprioritized := true;
          }
        } else {
          if option == "reload" {
            entry.deprioritized := false;
          } else if option == "climb" {
            entry.deprioritized := true;
          }
        }
      }
    }

    /**
      The menu was opened: inside the raid, the last "reload" entry on the
      steps (undesirable raid) or the last "walk here" entry on the steps
      (desirable raid) is moved to the end of the menu, which makes it the
      left-click action. `rewritten` tells whether the client's menu was set.
     */
    method OnMenuOpened(client: Client, removeTags: string -> string) returns (rewritten: bool)
      requires Valid()
      modifies client
      ensures Valid()
      ensures var target := MenuTarget(old(client.menuEntries), desirableRaidFound, removeTags);
        && (rewritten <==> inRaidChambers && target.Some?)
        && (rewritten ==> client.menuEntries == MoveToEnd(old(client.menuEntries), target.value))
        && (!rewritten ==> client.menuEntries == old(client.menuEntries))
    {
      if !inRaidChambers {
        return false;
      }
      var entries := client.menuEntries;
      var reloadEntry: Option<MenuEntry> := None;
      var climbEntry: Option<MenuEntry> := None;
      var walkHereEntry: Option<MenuEntry> := None;
      var k := 0;
      while k < |entries|
        invariant 0 <= k <= |entries|
        invariant reloadEntry == LastStepsEntry(entries[..k], "reload", removeTags)
        invariant climbEntry == LastStepsEntry(entries[..k], "climb", removeTags)
        invariant walkHereEntry == LastStepsEntry(entries[..k], "walk here", removeTags)
      {
        var entry := entries[k];
        assert entries[..k + 1][..k] == entries[..k];
        var option := Normalized(entry.option, removeTags);
        var target := Normalized(entry.target, removeTags);
        if OnSteps(target) {
          if option == "reload" {
            reloadEntry := Some(entry);
          } else if option == "climb" {
            climbEntry := Some(entry);
          } else if option == "walk here" {
            walkHereEntry := Some(entry);
          }
        }
        k := k + 1;
      }
      assert entries[..k] == entries;
      rewritten := false;
      if !desirableRaidFound {
        if reloadEntry.Some? {
          entries := MoveToEnd(entries, reloadEntry.value);
          client.menuEntries := entries;
          rewritten := true;
        }
      } else {
        if walkHereEntry.Some? {
          entries := MoveToEnd(entries, walkHereEntry.value);
          client.menuEntries := entries;
          rewritten := true;
        }
      }
    }
  }

  /**
    After the menu handler rewrote the menu, the menu holds the same entries
    as before, ends with the chosen entry on the steps, and lists the other
    entries in their previous order.
   */
  lemma RewrittenMenuSpec(entries: seq<MenuEntry>, desirable: bool, removeTags: string -> string)
    requires MenuTarget(entries, desirable, removeTags).Some?
    ensures var target := MenuTarget(entries, desirable, removeTags).value;
      var menu := MoveToEnd(entries, target);
      && multiset(menu) == multiset(entries)
      && |menu| == |entries|
      && menu[|entries| - 1] == target
      && IsStepsEntry(target, if desirable then "walk here" else "reload", removeTags)
      && menu[..|entries| - 1] == entries[..IndexOf(entries, target)] + entries[IndexOf(entries, target) + 1..]
  {
    var target := MenuTarget(entries, desirable, removeTags).value;
    LastStepsEntrySpec(entries, if desirable then "walk here" else "reload", removeTags);
    MoveToEndSpec(entries, target);
  }
}
