/**
  The scouting heuristic: given a scouted raid (its layout code and its room
  list) and the configuration, decide whether the raid is "desirable". A raid
  is desirable when the user selected at least one room, every selected room
  appears in the raid (ignoring case), the number of counted rooms is the one
  asked for, and the chosen start order, unless it is ANY, equals the first
  three characters of the layout code (all of it when shorter), upper-cased.
 */
module RaidScouting {
  import opened Wrappers
  import opened Strings
  import opened CoxMegaScaleConfig

  /**
    A scouted raid: the layout's code string and the raid's room slots, where
    a slot may be empty (a null room).
   */
  datatype Raid = Raid(layoutCode: string, rooms: seq<Option<string>>)

  /** Rooms that never count, compared against the lower-cased room name. */
  const IgnoredRooms: seq<string> := ["farming", "scavengers", "end", "start", "empty"]

  /** The name added for each include flag, in the order the flags are checked. */
  const RoomNames: seq<string> := ["Mystics", "Shamans", "Vasa", "Tightrope", "Thieving",
    "Ice Demon", "Guardians", "Vespula", "Tekton", "Vanguards", "Muttadiles"]

  // ---------------------------------------------------------------------
  // Start order
  // ---------------------------------------------------------------------

  /** The first three characters of the layout code (all of it when shorter), upper-cased. */
  function StartOrderCode(layoutCode: string): string
  {
    if |layoutCode| >= 3 then Upper(layoutCode[..3]) else Upper(layoutCode)
  }

  /** ANY matches every raid; any other order must equal the start order code. */
  function StartOrderMatches(order: RaidStartOrder, layoutCode: string): bool
  {
    order == RaidStartOrder.Any || StartOrderCode(layoutCode) == order.ToString()
  }

  function Min(a: int, b: int): int { if a <= b then a else b }

  /**
    A definite start order matches exactly when its string is as long as the
    code's prefix of at most three characters and agrees with that prefix
    upper-cased, character by character.
   */
  lemma StartOrderMatchesIff(order: RaidStartOrder, layoutCode: string)
    ensures order.Any? ==> StartOrderMatches(order, layoutCode)
    ensures order.Order? ==>
      (StartOrderMatches(order, layoutCode) <==>
        |order.code| == Min(3, |layoutCode|) &&
        forall i :: 0 <= i < |order.code| ==> order.code[i] == UpperChar(layoutCode[i]))
  {
    if order.Order? {
      var code := StartOrderCode(layoutCode);
      assert |code| == Min(3, |layoutCode|);
      assert forall i :: 0 <= i < |code| ==> code[i] == UpperChar(layoutCode[i]);
      if |order.code| == |code| && forall i :: 0 <= i < |order.code| ==> order.code[i] == UpperChar(layoutCode[i]) {
        assert code == order.code;
      }
    }
  }

  // ---------------------------------------------------------------------
  // Counted rooms
  // ---------------------------------------------------------------------

  /** A room slot that counts: it holds a room whose lower-cased name is not ignored. */
  predicate Counts(slot: Option<string>)
  {
    slot.Some? && Lower(slot.value) !in IgnoredRooms
  }

  /**
    The names of the raid's rooms after dropping empty slots and ignored
    rooms, in the raid's order.
   */
  function CountedRoomNames(rooms: seq<Option<string>>): (names: seq<string>)
    ensures |names| <= |rooms|
    ensures forall x :: x in names <==> Counts(Some(x)) && Some(x) in rooms
  {
    if |rooms| == 0 then []
    else
      var rest := CountedRoomNames(rooms[1..]);
      assert forall x :: Some(x) in rooms <==> Some(x) == rooms[0] || Some(x) in rooms[1..];
      (if Counts(rooms[0]) then [rooms[0].value] else []) + rest
  }

  /** The total number of rooms the raid is judged by. */
  function TotalRooms(rooms: seq<Option<string>>): nat
  {
    |CountedRoomNames(rooms)|
  }

  lemma {:induction false} CountedRoomNamesAppend(a: seq<Option<string>>, b: seq<Option<string>>)
    ensures CountedRoomNames(a + b) == CountedRoomNames(a) + CountedRoomNames(b)
  {
    if |a| > 0 {
      assert (a + b)[1..] == a[1..] + b;
      CountedRoomNamesAppend(a[1..], b);
    } else {
      assert a + b == b;
    }
  }

  /**
    Inserting one slot anywhere adds one to the room total when the slot
    counts, and changes neither the counted names nor the total otherwise:
    empty slots and ignored rooms never count.
   */
  lemma InsertedSlotCount(a: seq<Option<string>>, slot: Option<string>, b: seq<Option<string>>)
    ensures !Counts(slot) ==> CountedRoomNames(a + [slot] + b) == CountedRoomNames(a + b)
    ensures Counts(slot) ==> TotalRooms(a + [slot] + b) == TotalRooms(a + b) + 1
  {
    CountedRoomNamesAppend(a + [slot], b);
    CountedRoomNamesAppend(a, [slot]);
    CountedRoomNamesAppend(a, b);
    assert [slot][1..] == [];
  }

  // ---------------------------------------------------------------------
  // Room count
  // ---------------------------------------------------------------------

  /**
    Whether the total matches the configured room count. The source's final
    "no constant matched" branch cannot be reached with the three constants.
   */
  function RoomCountMatches(roomCount: RoomCount, totalRooms: int): bool
  {
    match roomCount
    case Any => true
    case Five => totalRooms == 5
    case Six => totalRooms == 6
  }

  /**
    A definite room count accepts exactly the totals whose decimal form is the
    constant's display name.
   */
  lemma RoomCountMatchesItsName(roomCount: RoomCount, totalRooms: int)
    requires roomCount != RoomCount.Any
    ensures RoomCountMatches(roomCount, totalRooms) <==> IntToDecimal(totalRooms) == roomCount.ToString()
  {
    DecimalRoundTrip(totalRooms);
    assert ParseDecimal("5") == Some(5);
    assert ParseDecimal("6") == Some(6);
    if roomCount == RoomCount.Five {
      assert IntToDecimal(5) == "5";
    } else {
      assert IntToDecimal(6) == "6";
    }
  }

  // ---------------------------------------------------------------------
  // Selected rooms
  // ---------------------------------------------------------------------

  /** The one-element list holding `name` when `included`, the empty list otherwise. */
  function Pick(included: bool, name: string): seq<string>
  {
    if included then [name] else []
  }

  /** The names of the first `k` flags whose flag is on, in the order of the names. */
  function SelectAmong(flags: seq<bool>, names: seq<string>, k: nat): seq<string>
    requires k <= |flags| == |names|
  {
    if k == 0 then []
    else SelectAmong(flags, names, k - 1) + Pick(flags[k - 1], names[k - 1])
  }

  /** The names whose flag is on, in the order of the names. */
  function Select(flags: seq<bool>, names: seq<string>): seq<string>
    requires |flags| == |names|
  {
    SelectAmong(flags, names, |flags|)
  }

  /** The rooms the user asked for, in the order the plugin checks the flags. */
  function SelectedRooms(c: Config): seq<string>
  {
    Select(IncludeFlags(c), RoomNames)
  }

  /** A name is selected exactly when it is the name of a flag that is on. */
  lemma {:induction false} SelectMembers(flags: seq<bool>, names: seq<string>, k: nat)
    requires k <= |flags| == |names|
    ensures |SelectAmong(flags, names, k)| <= k
    ensures forall x :: x in SelectAmong(flags, names, k) <==> exists i :: 0 <= i < k && flags[i] && names[i] == x
  {
    if k > 0 {
      SelectMembers(flags, names, k - 1);
      var prev := SelectAmong(flags, names, k - 1);
      assert SelectAmong(flags, names, k) == prev + Pick(flags[k - 1], names[k - 1]);
      forall x
        ensures x in SelectAmong(flags, names, k) <==> exists i :: 0 <= i < k && flags[i] && names[i] == x
      {
        if exists i :: 0 <= i < k && flags[i] && names[i] == x {
          var i :| 0 <= i < k && flags[i] && names[i] == x;
          if i < k - 1 {
            assert x in prev;
          }
        }
      }
    }
  }

  /** Nothing is selected exactly when every flag is off. */
  lemma {:induction false} SelectEmpty(flags: seq<bool>, names: seq<string>, k: nat)
    requires k <= |flags| == |names|
    ensures SelectAmong(flags, names, k) == [] <==> forall i :: 0 <= i < k ==> !flags[i]
  {
    if k > 0 {
      SelectEmpty(flags, names, k - 1);
      var prev, last := SelectAmong(flags, names, k - 1), Pick(flags[k - 1], names[k - 1]);
      assert SelectAmong(flags, names, k) == prev + last;
      if flags[k - 1] {
        assert |prev + last| == |prev| + 1;
      } else {
        assert prev + last == prev;
      }
    }
  }

  /** Names that differ at different positions. */
  ghost predicate Distinct(names: seq<string>)
  {
    forall i, j :: 0 <= i < j < |names| ==> names[i] != names[j]
  }

  /**
    With distinct names the selection keeps the names' order: when the
    selection lists `names[i]` before `names[j]`, then `i < j`.
   */
  lemma {:induction false} SelectOrdered(flags: seq<bool>, names: seq<string>, k: nat, p: nat, q: nat, i: nat, j: nat)
    requires k <= |flags| == |names| && Distinct(names)
    requires p < q < |SelectAmong(flags, names, k)| && i < |names| && j < |names|
    requires names[i] == SelectAmong(flags, names, k)[p] && names[j] == SelectAmong(flags, names, k)[q]
    ensures i < j
  {
    var prev := SelectAmong(flags, names, k - 1);
    var rooms := SelectAmong(flags, names, k);
    assert rooms == prev + Pick(flags[k - 1], names[k - 1]);
    SelectMembers(flags, names, k - 1);
    assert rooms[p] == prev[p] && prev[p] in prev;
    var i' :| 0 <= i' < k - 1 && flags[i'] && names[i'] == prev[p];
    if q < |prev| {
      assert rooms[q] == prev[q];
      SelectOrdered(flags, names, k - 1, p, q, i, j);
    } else {
      assert rooms[q] == names[k - 1];
    }
  }

  lemma RoomNamesDistinct()
    ensures Distinct(RoomNames)
  {
  }

  /**
    The selected rooms are exactly the names of the enabled flags, listed in
    flag order (hence without repetition), at most eleven of them, and none at
    all exactly when no flag is enabled.
   */
  lemma SelectedRoomsSpec(c: Config)
    ensures forall x :: x in SelectedRooms(c) <==> exists i :: 0 <= i < 11 && IncludeFlags(c)[i] && RoomNames[i] == x
    ensures forall p, q, i, j ::
      (0 <= p < q < |SelectedRooms(c)| && 0 <= i < 11 && 0 <= j < 11 &&
       RoomNames[i] == SelectedRooms(c)[p] && RoomNames[j] == SelectedRooms(c)[q]) ==> i < j
    ensures forall p, q :: 0 <= p < q < |SelectedRooms(c)| ==> SelectedRooms(c)[p] != SelectedRooms(c)[q]
    ensures |SelectedRooms(c)| <= 11
    ensures SelectedRooms(c) == [] <==> forall i :: 0 <= i < 11 ==> !IncludeFlags(c)[i]
  {
    var flags, rooms := IncludeFlags(c), SelectedRooms(c);
    RoomNamesDistinct();
    SelectMembers(flags, RoomNames, 11);
    SelectEmpty(flags, RoomNames, 11);
    forall p, q, i, j |
      0 <= p < q < |rooms| && 0 <= i < 11 && 0 <= j < 11 && RoomNames[i] == rooms[p] && RoomNames[j] == rooms[q]
      ensures i < j
    {
      SelectOrdered(flags, RoomNames, 11, p, q, i, j);
    }
    forall p, q | 0 <= p < q < |rooms| ensures rooms[p] != rooms[q] {
      assert rooms[p] in rooms && rooms[q] in rooms;
      var i :| 0 <= i < 11 && flags[i] && RoomNames[i] == rooms[p];
      var j :| 0 <= j < 11 && flags[j] && RoomNames[j] == rooms[q];
      SelectOrdered(flags, RoomNames, 11, p, q, i, j);
    }
  }

  /** A selection among eleven names, written out flag by flag. */
  lemma SelectEleven(flags: seq<bool>, names: seq<string>)
    requires |flags| == 11 && |names| == 11
    ensures Select(flags, names) == []
      + Pick(flags[0], names[0])
      + Pick(flags[1], names[1])
      + Pick(flags[2], names[2])
      + Pick(flags[3], names[3])
      + Pick(flags[4], names[4])
      + Pick(flags[5], names[5])
      + Pick(flags[6], names[6])
      + Pick(flags[7], names[7])
      + Pick(flags[8], names[8])
      + Pick(flags[9], names[9])
      + Pick(flags[10], names[10])
  {
    assert SelectAmong(flags, names, 0) == [];
    assert SelectAmong(flags, names, 1) == SelectAmong(flags, names, 0) + Pick(flags[0], names[0]);
    assert SelectAmong(flags, names, 2) == SelectAmong(flags, names, 1) + Pick(flags[1], names[1]);
    assert SelectAmong(flags, names, 3) == SelectAmong(flags, names, 2) + Pick(flags[2], names[2]);
    assert SelectAmong(flags, names, 4) == SelectAmong(flags, names, 3) + Pick(flags[3], names[3]);
    assert SelectAmong(flags, names, 5) == SelectAmong(flags, names, 4) + Pick(flags[4], names[4]);
    assert SelectAmong(flags, names, 6) == SelectAmong(flags, names, 5) + Pick(flags[5], names[5]);
    assert SelectAmong(flags, names, 7) == SelectAmong(flags, names, 6) + Pick(flags[6], names[6]);
    assert SelectAmong(flags, names, 8) == SelectAmong(flags, names, 7) + Pick(flags[7], names[7]);
    assert SelectAmong(flags, names, 9) == SelectAmong(flags, names, 8) + Pick(flags[8], names[8]);
    assert SelectAmong(flags, names, 10) == SelectAmong(flags, names, 9) + Pick(flags[9], names[9]);
    assert SelectAmong(flags, names, 11) == SelectAmong(flags, names, 10) + Pick(flags[10], names[10]);
  }

  /** The selected rooms, written out flag by flag. */
  lemma SelectedRoomsListed(c: Config)
    ensures SelectedRooms(c) == []
      + Pick(c.includeMystics, "Mystics")
      + Pick(c.includeShamans, "Shamans")
      + Pick(c.includeVasa, "Vasa")
      + Pick(c.includeTightrope, "Tightrope")
      + Pick(c.includeThieving, "Thieving")
      + Pick(c.includeIceDemon, "Ice Demon")
      + Pick(c.includeGuardians, "Guardians")
      + Pick(c.includeVespula, "Vespula")
      + Pick(c.includeTekton, "Tekton")
      + Pick(c.includeVanguards, "Vanguards")
      + Pick(c.includeMuttadiles, "Muttadiles")
  {
    SelectEleven(IncludeFlags(c), RoomNames);
  }

  /** One `if` of the selection: appends `name` to `rooms` when `included`. */
  method AddIfIncluded(rooms: seq<string>, included: bool, name: string) returns (selectedRooms: seq<string>)
    ensures selectedRooms == rooms + Pick(included, name)
  {
    selectedRooms := rooms;
    if included {
      selectedRooms := selectedRooms + [name];
    }
  }

  /** Checks the include flags in order and collects the names of those that are on. */
  method GetSelectedRooms(c: Config) returns (selectedRooms: seq<string>)
    ensures selectedRooms == SelectedRooms(c)
  {
    selectedRooms := [];
    selectedRooms := AddIfIncluded(selectedRooms, c.includeMystics, "Mystics");
    selectedRooms := AddIfIncluded(selectedRooms, c.includeShamans, "Shamans");
    selectedRooms := AddIfIncluded(selectedRooms, c.includeVasa, "Vasa");
    selectedRooms := AddIfIncluded(selectedRooms, c.includeTightrope, "Tightrope");
    selectedRooms := AddIfIncluded(selectedRooms, c.includeThieving, "Thieving");
    selectedRooms := AddIfIncluded(selectedRooms, c.includeIceDemon, "Ice Demon");
    selectedRooms := AddIfIncluded(selectedRooms, c.includeGuardians, "Guardians");
    selectedRooms := AddIfIncluded(selectedRooms, c.includeVespula, "Vespula");
    selectedRooms := AddIfIncluded(selectedRooms, c.includeTekton, "Tekton");
    selectedRooms := AddIfIncluded(selectedRooms, c.includeVanguards, "Vanguards");
    selectedRooms := AddIfIncluded(selectedRooms, c.includeMuttadiles, "Muttadiles");
    SelectedRoomsListed(c);
  }

  // ---------------------------------------------------------------------
  // Desirability
  // ---------------------------------------------------------------------

  /** The set of lower-cased names. */
  function LowerSet(names: seq<string>): set<string>
  {
    set n | n in names :: Lower(n)
  }

  /** Whether the scouted raid is the kind the user is looking for. */
  function IsDesirable(c: Config, raid: Raid): bool
  {
    var roomNames := CountedRoomNames(raid.rooms);
    var selectedRooms := SelectedRooms(c);
    var roomsMatch := LowerSet(selectedRooms) <= LowerSet(roomNames);
    var roomCountMatches := RoomCountMatches(c.roomCount, |roomNames|);
    var startOrderMatches := StartOrderMatches(c.raidStartOrder, raid.layoutCode);
    selectedRooms != [] && roomsMatch && roomCountMatches && startOrderMatches
  }

  /** No selectable room has a name that is ignored. */
  lemma SelectableRoomsNotIgnored()
    ensures forall i :: 0 <= i < 11 ==> Lower(RoomNames[i]) !in IgnoredRooms
  {
    forall i | 0 <= i < 11 ensures Lower(RoomNames[i]) !in IgnoredRooms {
      var low := Lower(RoomNames[i]);
      assert |low| == |RoomNames[i]| && low[0] == LowerChar(RoomNames[i][0]);
    }
  }

  /** A raid room matches the selected room `s`, ignoring case. */
  ghost predicate HasRoomNamed(raid: Raid, s: string)
  {
    exists r :: Some(r) in raid.rooms && Lower(r) == Lower(s)
  }

  /**
    A raid is desirable exactly when at least one room is selected, each
    selected room is among the raid's rooms up to case, the counted rooms
    match the room count and the layout code matches the start order.
   */
  lemma DesirableIff(c: Config, raid: Raid)
    ensures IsDesirable(c, raid) <==>
      && SelectedRooms(c) != []
      && (forall s :: s in SelectedRooms(c) ==> HasRoomNamed(raid, s))
      && RoomCountMatches(c.roomCount, TotalRooms(raid.rooms))
      && StartOrderMatches(c.raidStartOrder, raid.layoutCode)
  {
    var roomNames := CountedRoomNames(raid.rooms);
    var selectedRooms := SelectedRooms(c);
    SelectedRoomsSpec(c);
    SelectableRoomsNotIgnored();
    if LowerSet(selectedRooms) <= LowerSet(roomNames) {
      forall s | s in selectedRooms ensures HasRoomNamed(raid, s) {
        assert Lower(s) in LowerSet(roomNames);
        var r :| r in roomNames && Lower(r) == Lower(s);
        assert Some(r) in raid.rooms;
      }
    }
    if forall s :: s in selectedRooms ==> HasRoomNamed(raid, s) {
      forall x | x in LowerSet(selectedRooms) ensures x in LowerSet(roomNames) {
        var s :| s in selectedRooms && Lower(s) == x;
        var i :| 0 <= i < 11 && IncludeFlags(c)[i] && RoomNames[i] == s;
        assert HasRoomNamed(raid, s);
        var r :| Some(r) in raid.rooms && Lower(r) == Lower(s);
        assert Counts(Some(r));
        assert r in roomNames;
      }
    }
  }

  /** Two slot lists that differ only in the case of their room names. */
  ghost predicate SameUpToCase(a: seq<Option<string>>, b: seq<Option<string>>)
  {
    && |a| == |b|
    && (forall i :: 0 <= i < |a| ==> a[i].Some? == b[i].Some?)
    && (forall i :: 0 <= i < |a| && a[i].Some? && b[i].Some? ==> Lower(a[i].value) == Lower(b[i].value))
  }

  lemma LowerSetAppend(a: seq<string>, b: seq<string>)
    ensures LowerSet(a + b) == LowerSet(a) + LowerSet(b)
  {
    assert forall n :: n in a + b <==> n in a || n in b;
  }

  /** The first slot of two lists alike up to case contributes names alike up to case. */
  lemma HeadUpToCase(x: Option<string>, y: Option<string>)
    requires x.Some? == y.Some?
    requires x.Some? ==> Lower(x.value) == Lower(y.value)
    ensures Counts(x) == Counts(y)
    ensures LowerSet(if Counts(x) then [x.value] else []) == LowerSet(if Counts(y) then [y.value] else [])
  {
  }

  /** The case of the room names affects neither the room total nor the lower-cased counted names. */
  lemma {:induction false} CountedUpToCase(a: seq<Option<string>>, b: seq<Option<string>>)
    requires SameUpToCase(a, b)
    ensures |CountedRoomNames(a)| == |CountedRoomNames(b)|
    ensures LowerSet(CountedRoomNames(a)) == LowerSet(CountedRoomNames(b))
  {
    if |a| > 0 {
      assert SameUpToCase(a[1..], b[1..]);
      CountedUpToCase(a[1..], b[1..]);
      HeadUpToCase(a[0], b[0]);
      var headA := if Counts(a[0]) then [a[0].value] else [];
      var headB := if Counts(b[0]) then [b[0].value] else [];
      assert CountedRoomNames(a) == headA + CountedRoomNames(a[1..]);
      assert CountedRoomNames(b) == headB + CountedRoomNames(b[1..]);
      LowerSetAppend(headA, CountedRoomNames(a[1..]));
      LowerSetAppend(headB, CountedRoomNames(b[1..]));
    }
  }

  /**
    The verdict ignores the case of the raid's room names: a raid whose rooms
    differ from another's only in case is desirable exactly when the other is.
   */
  lemma DesirableIgnoresRoomCase(c: Config, raid: Raid, rooms: seq<Option<string>>)
    requires SameUpToCase(raid.rooms, rooms)
    ensures IsDesirable(c, raid) <==> IsDesirable(c, Raid(raid.layoutCode, rooms))
  {
    CountedUpToCase(raid.rooms, rooms);
  }

  /** Without any selected room no raid is desirable. */
  lemma NoSelectionNeverDesirable(c: Config, raid: Raid)
    requires forall i :: 0 <= i < 11 ==> !IncludeFlags(c)[i]
    ensures !IsDesirable(c, raid)
  {
    SelectedRoomsSpec(c);
  }

  /** Under the default configuration no scouted raid is ever desirable. */
  lemma DefaultNeverDesirable(raid: Raid)
    ensures !IsDesirable(Default, raid)
  {
    DefaultValues();
    NoSelectionNeverDesirable(Default, raid);
  }

  /**
    Dropping rooms from the selection never loses a desirable raid, as long as
    one room stays selected and the other settings are the same.
   */
  lemma FewerRoomsStillDesirable(c: Config, more: Config, raid: Raid)
    requires IsDesirable(more, raid)
    requires forall i :: 0 <= i < 11 && IncludeFlags(c)[i] ==> IncludeFlags(more)[i]
    requires exists i :: 0 <= i < 11 && IncludeFlags(c)[i]
    requires c.roomCount == more.roomCount && c.raidStartOrder == more.raidStartOrder
    ensures IsDesirable(c, raid)
  {
    SelectedRoomsSpec(c);
    SelectedRoomsSpec(more);
    DesirableIff(c, raid);
    DesirableIff(more, raid);
    forall s | s in SelectedRooms(c) ensures HasRoomNamed(raid, s) {
      var i :| 0 <= i < 11 && IncludeFlags(c)[i] && RoomNames[i] == s;
      assert s in SelectedRooms(more);
    }
  }
}
