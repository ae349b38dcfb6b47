/** The optional members map of document.h: a multimap from names to slots kept in step with the member array. */
module MembersMap {
  import opened Bytes
  import opened Dom
  import opened PointerTree

  /** An entry of the multimap; iterators to entries are handles, never given out twice. */
  datatype Entry = Entry(name: Text, slot: nat)

  type Multimap = map<nat, Entry>

  /** Slot `i`'s iterator names the entry for member `i`, and the map has no other entries. */
  ghost predicate InStep(ms: seq<Member>, mit: seq<nat>, entries: Multimap) {
    && |mit| == |ms|
    && (forall i :: 0 <= i < |ms| ==> mit[i] in entries && entries[mit[i]] == Entry(ms[i].name, i))
    && forall h :: h in entries ==> entries[h].slot < |ms| && mit[entries[h].slot] == h
  }

  lemma {:induction false} OneEntryEach(ms: seq<Member>, mit: seq<nat>, entries: Multimap)
    requires InStep(ms, mit, entries)
    ensures |entries| == |ms|
    decreases |ms|
  {
    if ms == [] {
      assert entries == map[];
    } else {
      var n := |ms| - 1;
      var fewer := entries - {mit[n]};
      assert forall h :: h in fewer ==> entries[h].slot != n;
      forall i | 0 <= i < n ensures mit[i] in fewer {
        assert entries[mit[i]].slot == i && entries[mit[n]].slot == n;
      }
      OneEntryEach(ms[..n], mit[..n], fewer);
      assert entries.Keys == fewer.Keys + {mit[n]};
      assert |entries.Keys| == |fewer.Keys| + 1;
    }
  }

  /** Some entry has the name exactly when the scan finds a member; with distinct names it is that member's. */
  lemma LookupAgrees(ms: seq<Member>, mit: seq<nat>, entries: Multimap, name: Text)
    requires InStep(ms, mit, entries)
    ensures (exists h :: h in entries && entries[h].name == name) <==> FindMember(ms, name) < |ms|
    ensures forall h :: h in entries && entries[h].name == name ==> ms[entries[h].slot].name == name
    ensures (forall i, j :: 0 <= i < j < |ms| ==> ms[i].name != ms[j].name) ==>
      forall h :: h in entries && entries[h].name == name ==> entries[h].slot == FindMember(ms, name)
  {
    var k := FindMember(ms, name);
    if k < |ms| {
      assert entries[mit[k]].name == name;
    }
    forall h | h in entries && entries[h].name == name ensures ms[entries[h].slot].name == name && k < |ms| {
      assert entries[mit[entries[h].slot]] == Entry(ms[entries[h].slot].name, entries[h].slot);
    }
  }

  /** The members without `[first, last)`. */
  function Without<T>(ms: seq<T>, first: nat, last: nat): (r: seq<T>)
    requires first <= last <= |ms|
  {
    ms[..first] + ms[last..]
  }

  /** The members after `RemoveMember`: the last one takes the place of the removed one. */
  function Removed(ms: seq<Member>, i: nat): (r: seq<Member>)
    requires i < |ms|
    ensures |r| == |ms| - 1
  {
    if i < |ms| - 1 then ms[..|ms| - 1][i := ms[|ms| - 1]] else ms[..|ms| - 1]
  }

  /** Removal takes out just the one member; the last one may take its place, and the others stay. */
  lemma RemovedTakesOne(ms: seq<Member>, i: nat)
    requires i < |ms|
    ensures forall j :: 0 <= j < |ms| - 1 ==> Removed(ms, i)[j] == ms[if j == i then |ms| - 1 else j]
    ensures multiset(Removed(ms, i)) == multiset(ms) - multiset{ms[i]}
  {
    var n := |ms| - 1;
    assert ms == ms[..n] + [ms[n]];
    if i < n {
      assert ms[..n] == ms[..i] + [ms[i]] + ms[i + 1..n];
      assert Removed(ms, i) == ms[..i] + [ms[n]] + ms[i + 1..n];
    }
  }

  /** Adding a member with a new handle. */
  lemma AddKeepsStep(ms: seq<Member>, mit: seq<nat>, entries: Multimap, m: Member, h: nat)
    requires InStep(ms, mit, entries) && h !in entries
    ensures InStep(ms + [m], mit + [h], entries[h := Entry(m.name, |ms|)])
  {
  }

  /** The entry of a removed member goes, and the last member's entry gets its slot. */
  lemma RemoveKeepsStep(ms: seq<Member>, mit: seq<nat>, entries: Multimap, i: nat)
    requires InStep(ms, mit, entries) && i < |ms|
    ensures var n := |ms| - 1;
      var fewer := entries - {mit[i]};
      if i == n then InStep(Removed(ms, i), mit[..n], fewer)
      else mit[n] in fewer && InStep(Removed(ms, i), mit[..n][i := mit[n]], fewer[mit[n] := fewer[mit[n]].(slot := i)])
  {
    var n := |ms| - 1;
    var fewer := entries - {mit[i]};
    assert forall h :: h in fewer ==> entries[h].slot != i;
    assert forall j :: 0 <= j < |ms| ==> entries[mit[j]].slot == j;
  }

  /** The entries once `[first, last)` went and the members behind it moved down. */
  ghost predicate ClosedUp(all: Multimap, entries: Multimap, first: nat, last: nat, next: nat)
    requires first <= last <= next
  {
    && (forall h :: h in entries <==> h in all && !(first <= all[h].slot < last))
    && forall h :: h in entries ==>
        entries[h] == if last <= all[h].slot < next then all[h].(slot := all[h].slot - (last - first)) else all[h]
  }

  /** One entry of the range goes. */
  lemma DropsOne(ms: seq<Member>, mit: seq<nat>, all: Multimap, entries: Multimap, first: nat, k: nat)
    requires InStep(ms, mit, all) && first <= k < |ms| && ClosedUp(all, entries, first, k, k)
    ensures mit[k] in entries && ClosedUp(all, entries - {mit[k]}, first, k + 1, k + 1)
  {
    assert all[mit[k]].slot == k && forall h :: h in all && all[h].slot == k ==> h == mit[k];
  }

  /** One entry behind the range moves down. */
  lemma MovesOne(ms: seq<Member>, mit: seq<nat>, all: Multimap, entries: Multimap, first: nat, last: nat, next: nat)
    requires InStep(ms, mit, all) && first <= last <= next < |ms| && ClosedUp(all, entries, first, last, next)
    ensures var h := mit[next];
      h in entries && ClosedUp(all, entries[h := entries[h].(slot := next - (last - first))], first, last, next + 1)
  {
    assert all[mit[next]].slot == next && forall h :: h in all && all[h].slot == next ==> h == mit[next];
  }

  lemma NothingClosed(all: Multimap, first: nat)
    ensures ClosedUp(all, all, first, first, first)
  {
  }

  lemma EraseKeepsStep(ms: seq<Member>, mit: seq<nat>, all: Multimap, entries: Multimap, first: nat, last: nat)
    requires InStep(ms, mit, all) && first <= last <= |ms| && ClosedUp(all, entries, first, last, |ms|)
    ensures InStep(Without(ms, first, last), Without(mit, first, last), entries)
  {
    var ms', mit' := Without(ms, first, last), Without(mit, first, last);
    forall i | 0 <= i < |ms'| ensures mit'[i] in entries && entries[mit'[i]] == Entry(ms'[i].name, i) {
      var j := if i < first then i else i + (last - first);
      assert ms'[i] == ms[j] && mit'[i] == mit[j] && all[mit[j]] == Entry(ms[j].name, j);
    }
    forall h | h in entries ensures entries[h].slot < |ms'| && mit'[entries[h].slot] == h {
      var j := all[h].slot;
      assert mit[j] == h;
    }
  }

  const DEFAULT_CAPACITY: nat := 16

  /** The capacity `DoAddMember` asks for when the array is full. */
  function Grown(capacity: nat): (r: nat) {
    if capacity > 0 then capacity + (capacity + 1) / 2 else DEFAULT_CAPACITY
  }

  /** `memcpy` of the first `count` slots. */
  method CopyFirst<T>(to: array<T>, from: array<T>, count: nat)
    requires to != from && count <= to.Length && count <= from.Length
    modifies to
    ensures to[..count] == from[..count]
  {
    for k := 0 to count
      invariant to[..k] == from[..k]
    {
      to[k] := from[k];
    }
  }

  method CopyFirstBackwards<T>(to: array<T>, from: array<T>, total: nat)
    requires to != from && total <= to.Length && total <= from.Length
    modifies to
    ensures to[..total] == from[..total]
  {
    var count := total;
    while count > 0
      invariant 0 <= count <= total && forall j :: count <= j < total ==> to[j] == from[j]
    {
      count := count - 1;
      to[count] := from[count];
    }
  }

  class ObjectData {
    var size: nat
    var members: array<Member>
    var mit: array<nat>
    var entries: Multimap
    var nextHandle: nat

    ghost function Contents(): (r: seq<Member>)
      requires size <= members.Length
      reads this, members
    {
      members[..size]
    }

    ghost predicate Valid()
      reads this, members, mit
    {
      && size <= members.Length == mit.Length
      && InStep(members[..size], mit[..size], entries)
      && forall h :: h in entries ==> h < nextHandle
    }

    constructor ()
      ensures Valid() && Contents() == [] && fresh(members) && fresh(mit)
    {
      size, members, mit, entries, nextHandle := 0, new Member[0], new nat[0], map[], 0;
    }

    /** `DoReallocMap`: as many members and iterators are copied as the map has entries. */
    method DoReallocMap(newCapacity: nat) returns (newMembers: array<Member>, newMit: array<nat>)
      requires Valid() && newCapacity > members.Length
      ensures fresh(newMembers) && fresh(newMit) && newMembers.Length == newCapacity == newMit.Length
      ensures newMembers[..size] == members[..size] && newMit[..size] == mit[..size]
    {
      OneEntryEach(members[..size], mit[..size], entries);
      hide InStep;
      var none := Member([], NullValue);
      newMembers, newMit := new Member[newCapacity](_ => none), new nat[newCapacity](_ => 0);
      var count := |entries|;
      assert count == |members[..size]| == size;
      CopyFirst(newMembers, members, count);
      CopyFirstBackwards(newMit, mit, count);
    }

    /** `DoReserveMembers`. */
    method DoReserveMembers(newCapacity: nat)
      requires Valid()
      modifies this
      ensures Valid() && Contents() == old(Contents()) && entries == old(entries) && mit[..size] == old(mit[..size])
      ensures size == old(size) && members.Length == if newCapacity > old(members.Length) then newCapacity else old(members.Length)
      ensures newCapacity <= old(members.Length) ==> members == old(members) && mit == old(mit)
      ensures newCapacity > old(members.Length) ==> fresh(members) && fresh(mit)
    {
      if newCapacity > members.Length {
        members, mit := DoReallocMap(newCapacity);
      }
    }

    /** `DoAddMember`. */
    method DoAddMember(name: Text, value: Value)
      requires Valid() && (size < members.Length || Grown(members.Length) < TWO_32)
      modifies this, members, mit
      ensures Valid() && Contents() == old(Contents()) + [Member(name, value)]
      ensures old(size) < old(members.Length) ==> members == old(members) && mit == old(mit)
      ensures old(size) == old(members.Length) ==>
        members.Length == if old(members.Length) == 0 then 16 else (3 * old(members.Length) + 1) / 2
    {
      ghost var before := Contents();
      if size >= members.Length {
        DoReserveMembers(Grown(members.Length));
      }
      ghost var slots := mit[..size];
      AddKeepsStep(before, slots, entries, Member(name, value), nextHandle);
      members[size] := Member(name, value);
      mit[size] := nextHandle;
      entries := entries[nextHandle := Entry(name, size)];
      nextHandle := nextHandle + 1;
      size := size + 1;
      assert members[..size] == before + [Member(name, value)];
      assert mit[..size] == slots + [nextHandle - 1];
    }

    /** `DoFindMember`: a member the multimap finds, the size when it finds none. */
    method DoFindMember(name: Text) returns (i: nat)
      requires Valid()
      ensures i <= size && (i < size ==> members[i].name == name)
      ensures i == size <==> FindMember(Contents(), name) == size
      ensures (forall j, k :: 0 <= j < k < size ==> members[j].name != members[k].name) ==> i == FindMember(Contents(), name)
    {
      LookupAgrees(Contents(), mit[..size], entries, name);
      i := size;
      if h :| h in entries && entries[h].name == name {
        i := entries[h].slot;
        assert Contents()[i].name == name;
      }
    }

    /** `DoRemoveMember`. */
    method DoRemoveMember(mpos: nat)
      requires Valid() && mpos < size
      modifies this, members, mit
      ensures Valid() && Contents() == Removed(old(Contents()), mpos)
    {
      hide InStep;
      ghost var before, slots := Contents(), mit[..size];
      RemoveKeepsStep(before, slots, entries, mpos);
      var last := size - 1;
      entries := entries - {mit[mpos]};
      if size > 1 && mpos != last {
        mit[mpos] := mit[last];
        assert mit[mpos] == slots[last];
        entries := entries[mit[mpos] := entries[mit[mpos]].(slot := mpos)];
        members[mpos] := members[last];
        assert members[..last] == before[..last][mpos := before[last]];
        assert mit[..last] == slots[..last][mpos := slots[last]];
      } else {
        assert members[..last] == before[..last] && mit[..last] == slots[..last];
      }
      size := size - 1;
    }

    /** `DoClearMembers`. */
    method DoClearMembers()
      requires Valid()
      modifies this
      ensures Valid() && Contents() == [] && members == old(members) && mit == old(mit)
    {
      ghost var all := entries;
      for i := 0 to size
        modifies `entries
        invariant forall h :: h in entries <==> h in all && all[h].slot >= i
      {
        entries := entries - {mit[i]};
      }
      size := 0;
      assert entries == map[];
    }

    /** `DoEraseMembers`: entries of the range go, those behind it move down with their members. */
    method DoEraseMembers(first: nat, last: nat)
      requires Valid() && first <= last <= size
      modifies this, members, mit
      ensures Valid() && Contents() == Without(old(Contents()), first, last)
    {
      hide InStep, ClosedUp, Without;
      ghost var ms, slots, all := Contents(), mit[..size], entries;
      NothingClosed(all, first);
      for itr := first to last
        modifies `entries
        invariant ClosedUp(all, entries, first, itr, itr)
      {
        DropsOne(ms, slots, all, entries, first, itr);
        entries := entries - {mit[itr]};
      }
      CloseGap(first, last, ms, slots, all);
      size := size - (last - first);
      EraseKeepsStep(ms, slots, all, entries, first, last);
      StillSmall(all, entries, first, last, |ms|);
    }

    /** Closing the gap, if there is one. */
    method CloseGap(first: nat, last: nat, ghost ms: seq<Member>, ghost slots: seq<nat>, ghost all: Multimap)
      requires first <= last <= size == |ms| == |slots| && size <= members.Length == mit.Length
      requires members[..size] == ms && mit[..size] == slots && InStep(ms, slots, all)
      requires ClosedUp(all, entries, first, last, last)
      modifies `entries, members, mit
      ensures ClosedUp(all, entries, first, last, |ms|)
      ensures members[..size - (last - first)] == Without(ms, first, last)
      ensures mit[..size - (last - first)] == Without(slots, first, last)
    {
      hide InStep, ClosedUp, Without;
      if first != last {
        MoveDown(first, last, ms, slots, all);
        WithoutIs(ms, first, last, members[..size - (last - first)]);
        WithoutIs(slots, first, last, mit[..size - (last - first)]);
      } else {
        NothingMoves(ms, slots, all, entries, first);
      }
    }

    /** The members and iterators behind the gap. */
    method MoveDown(first: nat, last: nat, ghost ms: seq<Member>, ghost slots: seq<nat>, ghost all: Multimap)
      requires first < last <= size == |ms| == |slots| && size <= members.Length == mit.Length
      requires members[..size] == ms && mit[..size] == slots && InStep(ms, slots, all)
      requires ClosedUp(all, entries, first, last, last)
      modifies `entries, members, mit
      ensures ClosedUp(all, entries, first, last, |ms|)
      ensures forall j :: 0 <= j < first ==> members[j] == ms[j] && mit[j] == slots[j]
      ensures forall j :: first <= j < size - (last - first) ==> members[j] == ms[j + (last - first)] && mit[j] == slots[j + (last - first)]
    {
      hide InStep, ClosedUp;
      var itr, next := first, last;
      while next != size
        invariant first <= itr && next == itr + (last - first) <= size
        invariant forall j :: 0 <= j < first ==> members[j] == ms[j] && mit[j] == slots[j]
        invariant forall j :: first <= j < itr ==> members[j] == ms[j + (last - first)] && mit[j] == slots[j + (last - first)]
        invariant forall j :: next <= j < size ==> members[j] == ms[j] && mit[j] == slots[j]
        invariant ClosedUp(all, entries, first, last, next)
      {
        MovesOne(ms, slots, all, entries, first, last, next);
        members[itr] := members[next];
        mit[itr] := mit[next];
        assert mit[itr] == slots[next];
        entries := entries[mit[itr] := entries[mit[itr]].(slot := itr)];
        itr, next := itr + 1, next + 1;
      }
    }
  }

  lemma WithoutIs<T>(ms: seq<T>, first: nat, last: nat, r: seq<T>)
    requires first <= last <= |ms| && |r| == |ms| - (last - first)
    requires forall j :: 0 <= j < |r| ==> r[j] == ms[if j < first then j else j + (last - first)]
    ensures r == Without(ms, first, last)
  {
  }

  lemma StillSmall(all: Multimap, entries: Multimap, first: nat, last: nat, next: nat)
    requires first <= last <= next && ClosedUp(all, entries, first, last, next)
    ensures forall h :: h in entries ==> h in all
  {
  }

  lemma NothingMoves(ms: seq<Member>, mit: seq<nat>, all: Multimap, entries: Multimap, first: nat)
    requires InStep(ms, mit, all) && first <= |ms| && ClosedUp(all, entries, first, first, first)
    ensures ClosedUp(all, entries, first, first, |ms|)
    ensures Without(ms, first, first) == ms && Without(mit, first, first) == mit
  {
  }
}
