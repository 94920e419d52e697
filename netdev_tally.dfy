/**
 * The network-interface tally of elf_det.h (add_netdev_count): a caller-owned
 * array of (ifindex, count, name) entries and its length, where each call
 * counts one more use of an interface, adding it on first sight while there
 * is room.
 */
module NetdevTally {
  import opened CTypes
  import opened CStrings

  /** ELF_DET_NETDEV_MAX, the capacity the module uses. */
  const NETDEV_MAX: int := 8
  /** ELF_DET_NETDEV_NAME_MAX == IFNAMSIZ: the name field's size, NUL included. */
  const NETDEV_NAME_MAX: nat := 16

  /** struct netdev_count; `name` is the C string held in the char[16] field. */
  datatype NetdevCount = NetdevCount(ifindex: i32, count: int, name: string)

  // ------------------------------------------------------------- specification

  /** The position of the first entry for `ifindex`, if any. */
  function FirstIndexOf(t: seq<NetdevCount>, ifindex: i32): (r: Option<nat>)
    ensures r.Some? ==> r.value < |t| && t[r.value].ifindex == ifindex
    ensures r.Some? ==> forall j :: 0 <= j < r.value ==> t[j].ifindex != ifindex
    ensures r.None? ==> forall j :: 0 <= j < |t| ==> t[j].ifindex != ifindex
  {
    if t == [] then None
    else if t[0].ifindex == ifindex then Some(0)
    else
      match FirstIndexOf(t[1..], ifindex)
      case None => None
      case Some(k) => Some(k + 1)
  }

  /**
   * The entries after one call of add_netdev_count. Nothing changes when the
   * name is NULL or `max_entries <= 0`; the first entry with the interface
   * index is counted once more; an unseen interface is appended with count 1
   * and its name cut to 15 characters, unless the list already holds
   * `max_entries` entries.
   */
  function TallyStep(t: seq<NetdevCount>, maxEntries: int, ifindex: i32, name: Option<string>): seq<NetdevCount> {
    if maxEntries <= 0 || name.None? then t
    else
      match FirstIndexOf(t, ifindex)
      case Some(i) => t[i := t[i].(count := t[i].count + 1)]
      case None =>
        if |t| >= maxEntries then t else t + [NetdevCount(ifindex, 1, Fit(name.value, NETDEV_NAME_MAX))]
  }

  /** No interface index appears twice. */
  ghost predicate Distinct(t: seq<NetdevCount>) {
    forall i, j :: 0 <= i < j < |t| ==> t[i].ifindex != t[j].ifindex
  }

  /**
   * One call keeps the indices distinct, grows the list by at most one entry
   * and never past `max_entries`, and changes no entry but the counted one.
   */
  lemma TallyStepShape(t: seq<NetdevCount>, maxEntries: int, ifindex: i32, name: Option<string>)
    requires Distinct(t)
    ensures var t' := TallyStep(t, maxEntries, ifindex, name);
      Distinct(t') && |t| <= |t'| <= |t| + 1 &&
      (|t| <= maxEntries ==> |t'| <= maxEntries) &&
      (forall k :: 0 <= k < |t| && t[k].ifindex != ifindex ==> t'[k] == t[k])
  {
  }

  /**
   * A call for a listed interface adds one to that interface's count and
   * changes nothing else: same length, same index and name, every other entry
   * as it was.
   */
  lemma TallyStepCountsListed(t: seq<NetdevCount>, maxEntries: int, ifindex: i32, name: string, k: nat)
    requires Distinct(t) && maxEntries > 0 && k < |t| && t[k].ifindex == ifindex
    ensures var t' := TallyStep(t, maxEntries, ifindex, Some(name));
      |t'| == |t| && t'[k] == t[k].(count := t[k].count + 1) &&
      (forall j :: 0 <= j < |t| && j != k ==> t'[j] == t[j])
  {
    assert FirstIndexOf(t, ifindex) == Some(k);
  }

  /**
   * A call for an unlisted interface appends it with count 1 while there is
   * room; on a full list it is dropped and the list stays as it was.
   */
  lemma TallyStepUnlisted(t: seq<NetdevCount>, maxEntries: int, ifindex: i32, name: string)
    requires maxEntries > 0 && !Listed(t, ifindex)
    ensures var t' := TallyStep(t, maxEntries, ifindex, Some(name));
      if |t| < maxEntries then
        |t'| == |t| + 1 && t'[..|t|] == t && t'[|t|] == NetdevCount(ifindex, 1, Fit(name, NETDEV_NAME_MAX))
      else t' == t && !Listed(t', ifindex)
  {
  }

  // ------------------------------------------------------------- the whole run

  /** One add_netdev_count call's arguments. */
  datatype NetdevEvent = NetdevEvent(ifindex: i32, name: Option<string>)

  /** The list after the calls `events`, in order, each with the same `max_entries`, from an empty list. */
  function TallyAll(events: seq<NetdevEvent>, maxEntries: int): seq<NetdevCount> {
    if events == [] then []
    else
      var last := events[|events| - 1];
      TallyStep(TallyAll(events[..|events| - 1], maxEntries), maxEntries, last.ifindex, last.name)
  }

  /** The number of calls in `events` that count interface `ifindex` (those with a name). */
  function Occurrences(events: seq<NetdevEvent>, ifindex: i32): nat {
    if events == [] then 0
    else
      var last := events[|events| - 1];
      Occurrences(events[..|events| - 1], ifindex) + if last.ifindex == ifindex && last.name.Some? then 1 else 0
  }

  predicate Listed(t: seq<NetdevCount>, ifindex: i32) {
    exists k :: 0 <= k < |t| && t[k].ifindex == ifindex
  }

  /**
   * What a run of calls leaves: distinct indices, at most `max_entries`
   * entries, names cut to fit the field, every entry's count equal to the
   * number of calls for it, and, while the list is not full, every interface
   * that was used is listed.
   */
  ghost predicate TallyInvariant(t: seq<NetdevCount>, events: seq<NetdevEvent>, maxEntries: int) {
    Distinct(t) && |t| <= maxEntries &&
    (forall k :: 0 <= k < |t| ==> |t[k].name| < NETDEV_NAME_MAX) &&
    (forall k :: 0 <= k < |t| ==> t[k].count == Occurrences(events, t[k].ifindex)) &&
    (forall x: i32 :: Occurrences(events, x) > 0 && |t| < maxEntries ==> Listed(t, x))
  }

  lemma TallyStepInvariant(t: seq<NetdevCount>, events: seq<NetdevEvent>, maxEntries: int, e: NetdevEvent)
    requires maxEntries > 0 && TallyInvariant(t, events, maxEntries)
    ensures TallyInvariant(TallyStep(t, maxEntries, e.ifindex, e.name), events + [e], maxEntries)
  {
    var t' := TallyStep(t, maxEntries, e.ifindex, e.name);
    var ev := events + [e];
    assert ev[..|ev| - 1] == events;
    TallyStepShape(t, maxEntries, e.ifindex, e.name);
    forall k | 0 <= k < |t'| ensures t'[k].count == Occurrences(ev, t'[k].ifindex) {
      if k < |t| && t[k].ifindex != e.ifindex {
        assert t'[k] == t[k];
      }
    }
    forall x: i32 | Occurrences(ev, x) > 0 && |t'| < maxEntries ensures Listed(t', x) {
      if x == e.ifindex && e.name.Some? {
        if FirstIndexOf(t, x).Some? {
          var i := FirstIndexOf(t, x).value;
          assert t'[i].ifindex == x;
        } else {
          assert t'[|t|].ifindex == x;
        }
      } else {
        assert Occurrences(events, x) > 0;
        var k :| 0 <= k < |t| && t[k].ifindex == x;
        assert t'[k].ifindex == x;
      }
    }
  }

  /** Every run of calls from an empty list keeps the tally invariant. */
  lemma {:induction false} TallyAllInvariant(events: seq<NetdevEvent>, maxEntries: int)
    requires maxEntries > 0
    ensures TallyInvariant(TallyAll(events, maxEntries), events, maxEntries)
    decreases |events|
  {
    if events != [] {
      var init := events[..|events| - 1];
      TallyAllInvariant(init, maxEntries);
      TallyStepInvariant(TallyAll(init, maxEntries), init, maxEntries, events[|events| - 1]);
      assert init + [events[|events| - 1]] == events;
    }
  }

  /** Two uses of eth0 and one of eth1 give eth0 counted twice and eth1 once, in first-seen order. */
  lemma TallyExample()
    ensures TallyAll([NetdevEvent(3, Some("eth0")), NetdevEvent(3, Some("eth0")), NetdevEvent(5, Some("eth1"))], NETDEV_MAX)
      == [NetdevCount(3, 2, "eth0"), NetdevCount(5, 1, "eth1")]
  {
    var e0, e1 := NetdevEvent(3, Some("eth0")), NetdevEvent(5, Some("eth1"));
    assert [e0, e0, e1][..2] == [e0, e0];
    assert [e0, e0][..1] == [e0];
    assert [e0][..0] == [];
    assert Fit("eth0", NETDEV_NAME_MAX) == "eth0";
    assert TallyAll([e0], NETDEV_MAX) == TallyStep([], NETDEV_MAX, 3, Some("eth0"));
    assert TallyAll([e0], NETDEV_MAX) == [NetdevCount(3, 1, "eth0")];
    assert TallyAll([e0, e0], NETDEV_MAX) == [NetdevCount(3, 2, "eth0")];
    assert Fit("eth1", NETDEV_NAME_MAX) == "eth1";
    assert FirstIndexOf([NetdevCount(3, 2, "eth0")], 5) == None;
    assert TallyAll([e0, e0, e1], NETDEV_MAX) == TallyStep([NetdevCount(3, 2, "eth0")], NETDEV_MAX, 5, Some("eth1"));
  }

  // ------------------------------------------------------------- the list in memory

  /** The caller's `struct netdev_count list[]` together with its `int list_len`. */
  class NetdevList {
    var entries: array<NetdevCount>
    var len: int

    ghost predicate Valid()
      reads this
    {
      0 <= len <= entries.Length
    }

    /** The entries in use. */
    function Contents(): seq<NetdevCount>
      reads this, entries
      requires Valid()
    {
      entries[..len]
    }

    /** An empty list with room for `capacity` entries. */
    constructor (capacity: nat)
      ensures Valid() && fresh(entries) && entries.Length == capacity && Contents() == []
    {
      entries := new NetdevCount[capacity](_ => NetdevCount(0, 0, ""));
      len := 0;
    }

    /**
     * add_netdev_count(list, &len, max_entries, ifindex, name) on a list whose
     * array holds at least `max_entries` entries.
     */
    method AddNetdevCount(maxEntries: i32, ifindex: i32, name: Option<string>)
      requires Valid() && maxEntries as int <= entries.Length
      requires name.Some? ==> NUL !in name.value
      modifies this, entries
      ensures Valid() && entries == old(entries)
      ensures Contents() == TallyStep(old(Contents()), maxEntries as int, ifindex, name)
      ensures forall j :: len <= j < entries.Length ==> entries[j] == old(entries[j])
    {
      if maxEntries <= 0 || name.None? {
        return;
      }
      var i := 0;
      while i < len
        invariant 0 <= i <= len
        invariant forall j :: 0 <= j < i ==> entries[j].ifindex != ifindex
      {
        if entries[i].ifindex == ifindex {
          ghost var before := entries[..len];
          entries[i] := entries[i].(count := entries[i].count + 1);
          assert FirstIndexOf(before, ifindex) == Some(i);
          assert entries[..len] == before[i := before[i].(count := before[i].count + 1)];
          return;
        }
        i := i + 1;
      }
      if len >= maxEntries as int {
        return;
      }
      ghost var before := entries[..len];
      // snprintf(list[len].name, sizeof(list[len].name), "%s", name)
      entries[len] := NetdevCount(ifindex, 1, Fit(name.value, NETDEV_NAME_MAX));
      len := len + 1;
      assert entries[..len] == before + [NetdevCount(ifindex, 1, Fit(name.value, NETDEV_NAME_MAX))];
    }
  }
}
