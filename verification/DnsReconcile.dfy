/** Bringing a router's static records in line with the hosts file (dns/dns_update.py). */
module DnsReconcile {

  type Record = map<string, string>

  const STATIC := "/ip/dns/static"
  const LEASE := "/ip/dhcp-server/lease"
  const RESOURCE := "_resource"

  const DYNAMIC_KEYS: set<string> :=
    {"status", "expires-after", "last-seen", "active-server", "active-address", "active-mac-address",
     "active-client-id", "class-id", "host-name", "radius", "blocked"}

  /** An entry as the router reports it, apart from its id. */
  datatype Entry = Entry(dynamic: bool, disabled: bool, attributes: map<string, string>)

  type Table = map<nat, Entry>

  /** `mikrotik_to_record` on the attributes of an entry. */
  function ToRecord(resourceType: string, attributes: map<string, string>): Record {
    var out := attributes[RESOURCE := resourceType];
    if resourceType == STATIC then
      if "type" in out then out else out["type" := "A"]
    else if resourceType == LEASE then
      map k | k in out && k !in DYNAMIC_KEYS && out[k] != "" :: out[k]
    else out
  }

  /** How an entry reads, key by key: a DNS entry without a type is an A record; of a lease the run-time keys and
    * everything empty are left out; and the record carries its resource type. */
  lemma ReadsAs(resourceType: string, attributes: map<string, string>, key: string)
    requires resourceType != ""
    ensures var r := ToRecord(resourceType, attributes);
      && "_resource" in r && r["_resource"] == resourceType
      && (resourceType == "/ip/dns/static" ==>
            "type" in r && r["type"] == if "type" in attributes then attributes["type"] else "A")
      && (resourceType != "/ip/dhcp-server/lease" && key != "_resource" ==>
            && (key in attributes ==> key in r && r[key] == attributes[key])
            && (key in r && key !in attributes ==> key == "type" && resourceType == "/ip/dns/static"))
      && (resourceType == "/ip/dhcp-server/lease" && key != "_resource" ==>
            var atRunTime := ["status", "expires-after", "last-seen", "active-server", "active-address",
                              "active-mac-address", "active-client-id", "class-id", "host-name", "radius", "blocked"];
            && (key in r <==> key in attributes && key !in atRunTime && attributes[key] != "")
            && (key in r ==> r[key] == attributes[key]))
  {
  }

  function RecordOf(resourceType: string, e: Entry): Record {
    ToRecord(resourceType, e.attributes)
  }

  /** The attributes a record is added with. */
  function Arguments(r: Record): map<string, string> {
    r - {RESOURCE}
  }

  /** All of the record but its resource type. */
  lemma ArgumentsMean(r: Record, key: string)
    ensures key in Arguments(r) <==> key in r && key != "_resource"
    ensures key in Arguments(r) ==> Arguments(r)[key] == r[key]
  {
  }

  /** What a record reads back as once it has been added. */
  function ReadBack(resourceType: string, r: Record): Record {
    ToRecord(resourceType, Arguments(r))
  }

  /** A record that the router gives back as it was written. */
  predicate Canonical(resourceType: string, r: Record) {
    RESOURCE in r && r[RESOURCE] == resourceType &&
    if resourceType == STATIC then "type" in r
    else if resourceType == LEASE then forall k :: k in r ==> k !in DYNAMIC_KEYS && r[k] != ""
    else true
  }

  lemma {:induction false} CanonicalIff(resourceType: string, r: Record)
    requires resourceType != ""
    ensures Canonical(resourceType, r) <==> ReadBack(resourceType, r) == r
  {
    if Canonical(resourceType, r) {
      assert Arguments(r)[RESOURCE := resourceType] == r;
      assert ReadBack(resourceType, r) == r;
    } else if ReadBack(resourceType, r) == r {
      ToRecordCanonical(resourceType, Arguments(r));
    }
  }

  /** Everything read from the router is canonical. */
  lemma ToRecordCanonical(resourceType: string, attributes: map<string, string>)
    requires resourceType != ""
    ensures Canonical(resourceType, ToRecord(resourceType, attributes))
  {
    assert RESOURCE !in DYNAMIC_KEYS;
  }

  predicate Static(t: Table, id: nat) {
    id in t && !t[id].dynamic
  }

  /** The records of the static entries. */
  ghost function StaticRecords(resourceType: string, t: Table): set<Record> {
    set id | id in t && Static(t, id) :: RecordOf(resourceType, t[id])
  }

  ghost function DynamicPart(t: Table): Table {
    map id | id in t && t[id].dynamic :: t[id]
  }

  /** Among some ids, the static entries whose record is not wanted. */
  ghost function Stale(resourceType: string, t: Table, desired: set<Record>, ids: set<nat>): set<nat> {
    set id | id in ids && Static(t, id) && RecordOf(resourceType, t[id]) !in desired
  }

  /** Among some ids, the wanted records that are there. */
  ghost function Kept(resourceType: string, t: Table, desired: set<Record>, ids: set<nat>): set<Record> {
    set id | id in ids && Static(t, id) && RecordOf(resourceType, t[id]) in desired :: RecordOf(resourceType, t[id])
  }

  /** Among some ids, no wanted record is there twice. */
  ghost predicate WantedOnce(resourceType: string, t: Table, desired: set<Record>, ids: set<nat>) {
    forall i, j | i in ids && j in ids && i != j && Static(t, i) && Static(t, j)
                  && RecordOf(resourceType, t[i]) in desired ::
      RecordOf(resourceType, t[i]) != RecordOf(resourceType, t[j])
  }

  /** No two static entries read as the same record. */
  ghost predicate NoDuplicates(resourceType: string, t: Table) {
    forall i, j | Static(t, i) && Static(t, j) && i != j ::
      RecordOf(resourceType, t[i]) != RecordOf(resourceType, t[j])
  }

  lemma OneMore(resourceType: string, t: Table, desired: set<Record>, ids: set<nat>, id: nat)
    requires Static(t, id) && id !in ids
    ensures var r, more := RecordOf(resourceType, t[id]), ids + {id};
      && Stale(resourceType, t, desired, more) == Stale(resourceType, t, desired, ids) + (if r in desired then {} else {id})
      && id !in Stale(resourceType, t, desired, ids)
      && (t - Stale(resourceType, t, desired, ids)) - {id} == t - (Stale(resourceType, t, desired, ids) + {id})
      && Kept(resourceType, t, desired, ids) <= desired
      && Kept(resourceType, t, desired, more) == Kept(resourceType, t, desired, ids) + (if r in desired then {r} else {})
      && (WantedOnce(resourceType, t, desired, more) <==>
            WantedOnce(resourceType, t, desired, ids) && r !in Kept(resourceType, t, desired, ids))
  {
    hide RecordOf;
    var r, more := RecordOf(resourceType, t[id]), ids + {id};
    if r in Kept(resourceType, t, desired, ids) {
      var j :| j in ids && Static(t, j) && RecordOf(resourceType, t[j]) in desired && RecordOf(resourceType, t[j]) == r;
      assert j in more && id in more;
    }
  }

  lemma OneMoreDynamic(resourceType: string, t: Table, desired: set<Record>, ids: set<nat>, id: nat)
    requires !Static(t, id)
    ensures Stale(resourceType, t, desired, ids + {id}) == Stale(resourceType, t, desired, ids)
    ensures Kept(resourceType, t, desired, ids + {id}) == Kept(resourceType, t, desired, ids)
    ensures WantedOnce(resourceType, t, desired, ids + {id}) == WantedOnce(resourceType, t, desired, ids)
  {
  }

  lemma WantedOnceSubset(resourceType: string, t: Table, desired: set<Record>, ids: set<nat>, more: set<nat>)
    requires ids <= more && WantedOnce(resourceType, t, desired, more)
    ensures WantedOnce(resourceType, t, desired, ids)
  {
  }

  /** A record the additions cannot be sorted by: it has neither name nor MAC address. */
  predicate Keyless(r: Record) {
    "name" !in r && "mac-address" !in r
  }

  /** `sorted` compares a missing key with another one. */
  predicate Unsortable(toAdd: set<Record>) {
    |toAdd| >= 2 && exists r :: r in toAdd && Keyless(r)
  }

  /** Records are sorted by name, or else by MAC address: one without either is fatal unless it is alone. */
  lemma SortableIff(toAdd: set<Record>)
    ensures !Unsortable(toAdd) <==> |toAdd| < 2 || forall r :: r in toAdd ==> "name" in r || "mac-address" in r
  {
  }

  /** How one pass over a resource ends: with a number of operations, or with the exception it raises. */
  datatype Outcome = Completed(operations: nat) | KeyError | TypeError

  /** The router's side of one resource type. */
  class Resource {
    var entries: Table
    var nextId: nat

    ghost predicate Valid()
      reads this
    {
      forall id :: id in entries ==> id < nextId
    }

    constructor ()
      ensures Valid() && entries == map[]
    {
      entries, nextId := map[], 0;
    }

    /** `get`: every entry's id, in some order. */
    method Get() returns (ids: seq<nat>)
      ensures forall id :: id in ids <==> id in entries
      ensures forall i, j :: 0 <= i < j < |ids| ==> ids[i] != ids[j]
    {
      ids := [];
      var rest := entries.Keys;
      while rest != {}
        invariant rest <= entries.Keys
        invariant forall id :: id in entries <==> id in ids || id in rest
        invariant forall id :: id in ids ==> id !in rest
        invariant forall i, j :: 0 <= i < j < |ids| ==> ids[i] != ids[j]
        decreases |rest|
      {
        var id :| id in rest;
        ids := ids + [id];
        rest := rest - {id};
      }
    }

    method Remove(id: nat)
      requires Valid()
      modifies this`entries
      ensures Valid() && entries == old(entries) - {id}
    {
      entries := entries - {id};
    }

    method Add(attributes: map<string, string>)
      requires Valid()
      modifies this
      ensures Valid() && old(nextId) !in old(entries)
      ensures entries == old(entries)[old(nextId) := Entry(false, false, attributes)] && nextId == old(nextId) + 1
    {
      entries := entries[nextId := Entry(false, false, attributes)];
      nextId := nextId + 1;
    }
  }

  /** A table with some of the entries of a larger one and all of a smaller one. */
  ghost predicate Between(least: Table, now: Table, most: Table) {
    least.Keys <= now.Keys <= most.Keys && forall id :: id in now ==> now[id] == most[id]
  }

  /** The removal phase has dealt with the entries in `seen`. */
  ghost predicate Removed(resourceType: string, t: Table, desired: set<Record>, dryRun: bool, seen: set<nat>,
                          now: Table, toAdd: set<Record>, count: nat) {
    && now == (if dryRun then t else t - Stale(resourceType, t, desired, seen))
    && count == |Stale(resourceType, t, desired, seen)|
    && toAdd == desired - Kept(resourceType, t, desired, seen)
    && WantedOnce(resourceType, t, desired, seen)
  }

  lemma RemovedNone(resourceType: string, t: Table, desired: set<Record>, dryRun: bool)
    ensures Removed(resourceType, t, desired, dryRun, {}, t, desired, 0)
  {
  }

  lemma RemovedDynamic(resourceType: string, t: Table, desired: set<Record>, dryRun: bool, seen: set<nat>,
                       now: Table, toAdd: set<Record>, count: nat, id: nat)
    requires Removed(resourceType, t, desired, dryRun, seen, now, toAdd, count) && !Static(t, id)
    ensures Removed(resourceType, t, desired, dryRun, seen + {id}, now, toAdd, count)
  {
    OneMoreDynamic(resourceType, t, desired, seen, id);
  }

  lemma RemovedStatic(resourceType: string, t: Table, desired: set<Record>, dryRun: bool, seen: set<nat>,
                      now: Table, toAdd: set<Record>, count: nat, id: nat)
    requires Removed(resourceType, t, desired, dryRun, seen, now, toAdd, count) && Static(t, id) && id !in seen
    ensures var r, more := RecordOf(resourceType, t[id]), seen + {id};
      && (r in desired && r in toAdd ==> Removed(resourceType, t, desired, dryRun, more, now, toAdd - {r}, count))
      && (r in desired && r !in toAdd ==> !WantedOnce(resourceType, t, desired, more))
      && (r !in desired ==>
            Removed(resourceType, t, desired, dryRun, more, if dryRun then now else now - {id}, toAdd, count + 1))
  {
    hide RecordOf, Stale, Kept, WantedOnce;
    OneMore(resourceType, t, desired, seen, id);
  }

  lemma RemovedKeepsDynamic(resourceType: string, t: Table, desired: set<Record>, dryRun: bool, seen: set<nat>,
                            now: Table, toAdd: set<Record>, count: nat)
    requires Removed(resourceType, t, desired, dryRun, seen, now, toAdd, count)
    ensures DynamicPart(now) == DynamicPart(t) && now.Keys <= t.Keys
  {
  }

  lemma RemovedSoFar(resourceType: string, t: Table, desired: set<Record>, dryRun: bool, seen: set<nat>,
                     now: Table, toAdd: set<Record>, count: nat)
    requires Removed(resourceType, t, desired, dryRun, seen, now, toAdd, count) && seen <= t.Keys
    ensures !dryRun ==> Between(t - Stale(resourceType, t, desired, t.Keys), now, t)
  {
    hide RecordOf, Kept, WantedOnce;
  }

  /** Removing what is stale, or the KeyError raised at a second entry for the same wanted record. */
  method RemoveStale(resourceType: string, desired: set<Record>, resource: Resource, dryRun: bool)
    returns (toAdd: set<Record>, count: nat, ok: bool)
    requires resource.Valid()
    modifies resource`entries
    ensures resource.Valid() && DynamicPart(resource.entries) == DynamicPart(old(resource.entries))
    ensures dryRun ==> resource.entries == old(resource.entries)
    ensures !ok && !dryRun ==>
      var t := old(resource.entries);
      Between(t - Stale(resourceType, t, desired, t.Keys), resource.entries, t)
    ensures ok <==> WantedOnce(resourceType, old(resource.entries), desired, old(resource.entries).Keys)
    ensures ok ==> Removed(resourceType, old(resource.entries), desired, dryRun, old(resource.entries).Keys,
                           resource.entries, toAdd, count)
  {
    hide RecordOf, Removed, WantedOnce, DynamicPart, Between;
    var snapshot := resource.entries;
    ghost var seen: set<nat> := {};
    toAdd, count, ok := desired, 0, true;
    var ids := resource.Get();
    RemovedNone(resourceType, snapshot, desired, dryRun);
    for i := 0 to |ids|
      invariant resource.Valid() && (dryRun ==> resource.entries == snapshot)
      invariant seen == (set id | id in ids[..i]) && seen <= snapshot.Keys
      invariant Removed(resourceType, snapshot, desired, dryRun, seen, resource.entries, toAdd, count)
    {
      ghost var before := seen;
      var entry := snapshot[ids[i]];
      seen := seen + {ids[i]};
      if entry.dynamic {
        RemovedDynamic(resourceType, snapshot, desired, dryRun, before, resource.entries, toAdd, count, ids[i]);
        continue;
      }
      RemovedStatic(resourceType, snapshot, desired, dryRun, before, resource.entries, toAdd, count, ids[i]);
      var record := RecordOf(resourceType, entry);
      if record in desired {
        if record !in toAdd {
          if WantedOnce(resourceType, snapshot, desired, snapshot.Keys) {
            WantedOnceSubset(resourceType, snapshot, desired, seen, snapshot.Keys);
          }
          RemovedKeepsDynamic(resourceType, snapshot, desired, dryRun, before, resource.entries, toAdd, count);
          RemovedSoFar(resourceType, snapshot, desired, dryRun, before, resource.entries, toAdd, count);
          ok := false;
          return;
        }
        toAdd := toAdd - {record};
      } else {
        count := count + 1;
        if !dryRun {
          resource.Remove(ids[i]);
        }
      }
    }
    assert seen == snapshot.Keys;
    RemovedKeepsDynamic(resourceType, snapshot, desired, dryRun, seen, resource.entries, toAdd, count);
    RemovedOnce(resourceType, snapshot, desired, dryRun, seen, resource.entries, toAdd, count);
  }

  lemma RemovedOnce(resourceType: string, t: Table, desired: set<Record>, dryRun: bool, seen: set<nat>,
                    now: Table, toAdd: set<Record>, count: nat)
    requires Removed(resourceType, t, desired, dryRun, seen, now, toAdd, count)
    ensures WantedOnce(resourceType, t, desired, seen)
  {
  }

  ghost function ReadBacks(resourceType: string, rs: set<Record>): set<Record> {
    set r | r in rs :: ReadBack(resourceType, r)
  }

  /** The entry a record is added as. */
  function NewEntry(r: Record): Entry {
    Entry(false, false, Arguments(r))
  }

  ghost predicate IsEntryOf(e: Entry, done: set<Record>) {
    exists r :: r in done && e == NewEntry(r)
  }

  /** Every entry of a table is still there, unchanged and under its id, and there is one more per record. */
  ghost predicate Extends(t: Table, done: set<Record>, now: Table) {
    && (forall id :: id in t ==> id in now && now[id] == t[id])
    && (forall id :: id in now && id !in t ==> IsEntryOf(now[id], done))
    && |now| == |t| + |done|
  }

  lemma EntryOfMore(done: set<Record>, r: Record)
    ensures IsEntryOf(NewEntry(r), done + {r})
    ensures forall e :: IsEntryOf(e, done) ==> IsEntryOf(e, done + {r})
  {
    hide NewEntry;
    assert r in done + {r};
    forall e | IsEntryOf(e, done) ensures IsEntryOf(e, done + {r}) {
      var x :| x in done && e == NewEntry(x);
      assert x in done + {r};
    }
  }

  lemma ExtendsOne(t: Table, done: set<Record>, now: Table, r: Record, id: nat)
    requires Extends(t, done, now) && r !in done && id !in now
    ensures Extends(t, done + {r}, now[id := NewEntry(r)])
  {
    hide NewEntry, IsEntryOf;
    EntryOfMore(done, r);
  }

  /** The records in `done` have been added to a table. */
  ghost predicate Added(resourceType: string, t: Table, done: set<Record>, now: Table) {
    && Extends(t, done, now)
    && DynamicPart(now) == DynamicPart(t)
    && StaticRecords(resourceType, now) == StaticRecords(resourceType, t) + ReadBacks(resourceType, done)
    && ((NoDuplicates(resourceType, t) && done !! StaticRecords(resourceType, t) && Faithful(resourceType, done)) ==>
          NoDuplicates(resourceType, now))
  }

  /** The records read back as written. */
  ghost predicate Faithful(resourceType: string, rs: set<Record>) {
    forall r :: r in rs ==> ReadBack(resourceType, r) == r
  }

  lemma AddedOne(resourceType: string, t: Table, done: set<Record>, now: Table, r: Record, id: nat)
    requires Added(resourceType, t, done, now) && r !in done && id !in now
    ensures Added(resourceType, t, done + {r}, now[id := NewEntry(r)])
  {
    hide ToRecord, Extends;
    ExtendsOne(t, done, now, r, id);
    var e := NewEntry(r);
    var next := now[id := e];
    var back := ReadBack(resourceType, r);
    assert RecordOf(resourceType, e) == back;
    assert ReadBacks(resourceType, done + {r}) == ReadBacks(resourceType, done) + {back};
    StaticInsert(resourceType, now, id, e);
    if NoDuplicates(resourceType, t) && done + {r} !! StaticRecords(resourceType, t) &&
       Faithful(resourceType, done + {r})
    {
      assert r in done + {r};
      assert ReadBacks(resourceType, done) == done;
      assert back !in StaticRecords(resourceType, now);
      InsertKeepsDistinct(resourceType, now, id, e);
    }
  }

  lemma StaticInsert(resourceType: string, t: Table, id: nat, e: Entry)
    requires id !in t && !e.dynamic
    ensures StaticRecords(resourceType, t[id := e]) == StaticRecords(resourceType, t) + {RecordOf(resourceType, e)}
    ensures DynamicPart(t[id := e]) == DynamicPart(t)
  {
    hide RecordOf;
    var next := t[id := e];
    assert Static(next, id);
    forall r ensures r in StaticRecords(resourceType, next) <==>
                     r in StaticRecords(resourceType, t) || r == RecordOf(resourceType, e)
    {
      if r in StaticRecords(resourceType, t) {
        var j :| j in t && Static(t, j) && RecordOf(resourceType, t[j]) == r;
        assert j in next && Static(next, j) && next[j] == t[j];
      }
    }
  }

  lemma InsertKeepsDistinct(resourceType: string, t: Table, id: nat, e: Entry)
    requires id !in t && NoDuplicates(resourceType, t) && RecordOf(resourceType, e) !in StaticRecords(resourceType, t)
    ensures NoDuplicates(resourceType, t[id := e])
  {
    hide RecordOf;
    var next := t[id := e];
    forall i, j | Static(next, i) && Static(next, j) && i != j
      ensures RecordOf(resourceType, next[i]) != RecordOf(resourceType, next[j])
    {
      if i != id {
        assert Static(t, i);
      }
      if j != id {
        assert Static(t, j);
      }
    }
  }

  /** Adding what is missing, in any order, unless the additions cannot be sorted. */
  method AddMissing(resourceType: string, toAdd: set<Record>, resource: Resource, dryRun: bool)
    returns (count: nat, ok: bool)
    requires resource.Valid()
    modifies resource
    ensures resource.Valid() && ok == !Unsortable(toAdd)
    ensures dryRun || !ok ==> resource.entries == old(resource.entries)
    ensures ok ==> count == |toAdd|
    ensures ok && !dryRun ==> Added(resourceType, old(resource.entries), toAdd, resource.entries)
    ensures forall id :: id in resource.entries && id !in old(resource.entries) ==> id >= old(resource.nextId)
  {
    hide Added, Keyless, ToRecord;
    count, ok := 0, !Unsortable(toAdd);
    if !ok {
      return;
    }
    var rest := toAdd;
    AddedNone(resourceType, resource.entries);
    assert toAdd - rest == {};
    while rest != {}
      invariant resource.Valid() && rest <= toAdd && count + |rest| == |toAdd|
      invariant dryRun ==> resource.entries == old(resource.entries)
      invariant !dryRun ==> Added(resourceType, old(resource.entries), toAdd - rest, resource.entries)
      invariant resource.nextId >= old(resource.nextId)
      invariant forall id :: id in resource.entries && id !in old(resource.entries) ==> id >= old(resource.nextId)
      decreases |rest|
    {
      var r :| r in rest;
      count := count + 1;
      if !dryRun {
        AddedOne(resourceType, old(resource.entries), toAdd - rest, resource.entries, r, resource.nextId);
        resource.Add(Arguments(r));
      }
      assert toAdd - (rest - {r}) == (toAdd - rest) + {r};
      rest := rest - {r};
    }
    assert toAdd - rest == toAdd;
  }

  lemma AddedNone(resourceType: string, t: Table)
    ensures Added(resourceType, t, {}, t)
  {
  }

  /** The wanted records that are not there yet. */
  ghost function Missing(resourceType: string, t: Table, desired: set<Record>): set<Record> {
    desired - StaticRecords(resourceType, t)
  }

  /** What one pass over a resource does, exceptions included. */
  ghost predicate Pass(resourceType: string, desired: set<Record>, dryRun: bool, t: Table, now: Table, outcome: Outcome) {
    var stale, missing := Stale(resourceType, t, desired, t.Keys), Missing(resourceType, t, desired);
    && DynamicPart(now) == DynamicPart(t)
    && (dryRun ==> now == t)
    && (outcome.KeyError? <==> !WantedOnce(resourceType, t, desired, t.Keys))
    && (outcome.TypeError? <==> WantedOnce(resourceType, t, desired, t.Keys) && Unsortable(missing))
    && (outcome.Completed? ==> outcome.operations == |stale| + |missing|)
    && (!dryRun && outcome.KeyError? ==> Between(t - stale, now, t))
    && (!dryRun && outcome.TypeError? ==> now == t - stale)
    && (outcome.Completed? && !dryRun ==> Added(resourceType, t - stale, missing, now) && stale !! now.Keys)
  }

  lemma PassFromPhases(resourceType: string, desired: set<Record>, t: Table, dryRun: bool,
                       mid: Table, toAdd: set<Record>, count: nat)
    requires Removed(resourceType, t, desired, dryRun, t.Keys, mid, toAdd, count)
    ensures toAdd == Missing(resourceType, t, desired) && count == |Stale(resourceType, t, desired, t.Keys)|
    ensures !dryRun ==> mid == t - Stale(resourceType, t, desired, t.Keys)
  {
    hide RecordOf;
    forall r | r in desired ensures r in Kept(resourceType, t, desired, t.Keys) <==> r in StaticRecords(resourceType, t) {
      if r in StaticRecords(resourceType, t) {
        var i :| i in t && Static(t, i) && RecordOf(resourceType, t[i]) == r;
        assert i in t.Keys;
      }
    }
  }

  lemma AddedKeepsDynamic(resourceType: string, t: Table, done: set<Record>, now: Table)
    requires Added(resourceType, t, done, now)
    ensures DynamicPart(now) == DynamicPart(t)
  {
  }

  /** No new entry gets the id of a removed one. */
  lemma RemovedIdsStayFree(resourceType: string, t: Table, desired: set<Record>, now: Table)
    requires forall id :: id in now && id !in t - Stale(resourceType, t, desired, t.Keys) ==> id !in t
    ensures Stale(resourceType, t, desired, t.Keys) !! now.Keys
  {
    hide RecordOf;
  }

  /** One pass over one resource type. */
  method Reconcile(resourceType: string, desired: set<Record>, resource: Resource, dryRun: bool) returns (outcome: Outcome)
    requires resource.Valid()
    modifies resource
    ensures resource.Valid()
    ensures Pass(resourceType, desired, dryRun, old(resource.entries), resource.entries, outcome)
  {
    hide Removed, Added, WantedOnce, DynamicPart, Stale, Missing, Unsortable;
    ghost var t := resource.entries;
    var toAdd, removals, unique := RemoveStale(resourceType, desired, resource, dryRun);
    if !unique {
      return KeyError;
    }
    ghost var mid := resource.entries;
    PassFromPhases(resourceType, desired, t, dryRun, mid, toAdd, removals);
    var additions, sortable := AddMissing(resourceType, toAdd, resource, dryRun);
    if !sortable {
      return TypeError;
    }
    if !dryRun {
      RemovedIdsStayFree(resourceType, t, desired, resource.entries);
      AddedKeepsDynamic(resourceType, mid, toAdd, resource.entries);
    }
    return Completed(removals + additions);
  }

  lemma KeptIsIntersection(resourceType: string, t: Table, desired: set<Record>)
    ensures StaticRecords(resourceType, t - Stale(resourceType, t, desired, t.Keys)) ==
            StaticRecords(resourceType, t) * desired
  {
    hide RecordOf;
    var kept := t - Stale(resourceType, t, desired, t.Keys);
    forall r | r in StaticRecords(resourceType, t) * desired ensures r in StaticRecords(resourceType, kept) {
      var i :| i in t && Static(t, i) && RecordOf(resourceType, t[i]) == r;
      assert i in kept && Static(kept, i);
    }
    forall r | r in StaticRecords(resourceType, kept) ensures r in StaticRecords(resourceType, t) * desired {
      var i :| i in kept && Static(kept, i) && RecordOf(resourceType, kept[i]) == r;
      assert Static(t, i);
    }
  }

  /** A completed pass leaves exactly the wanted records if and only if all of them are canonical. */
  lemma {:induction false} ConvergesIff(resourceType: string, desired: set<Record>, t: Table, now: Table, outcome: Outcome)
    requires resourceType != "" && Pass(resourceType, desired, false, t, now, outcome) && outcome.Completed?
    ensures StaticRecords(resourceType, now) == desired <==> forall r :: r in desired ==> Canonical(resourceType, r)
  {
    hide StaticRecords, Canonical, NoDuplicates, WantedOnce, Unsortable, DynamicPart, Stale, Extends;
    var missing := Missing(resourceType, t, desired);
    KeptIsIntersection(resourceType, t, desired);
    if forall r :: r in desired ==> Canonical(resourceType, r) {
      CanonicalReadBacks(resourceType, missing);
    }
    if StaticRecords(resourceType, now) == desired {
      StaticRecordsCanonical(resourceType, now);
    }
  }

  lemma CanonicalReadBacks(resourceType: string, rs: set<Record>)
    requires resourceType != "" && forall r :: r in rs ==> Canonical(resourceType, r)
    ensures Faithful(resourceType, rs) && ReadBacks(resourceType, rs) == rs
  {
    hide ToRecord, Canonical;
    forall r | r in rs ensures ReadBack(resourceType, r) == r {
      CanonicalIff(resourceType, r);
    }
  }

  lemma StaticRecordsCanonical(resourceType: string, t: Table)
    requires resourceType != ""
    ensures forall r :: r in StaticRecords(resourceType, t) ==> Canonical(resourceType, r)
  {
    hide ToRecord, Canonical;
    forall r | r in StaticRecords(resourceType, t) ensures Canonical(resourceType, r) {
      var i :| i in t && Static(t, i) && RecordOf(resourceType, t[i]) == r;
      ToRecordCanonical(resourceType, t[i].attributes);
    }
  }

  /** Without duplicates on the router, the number of operations is the size of the symmetric difference. */
  lemma {:induction false} OperationsAreDifference(resourceType: string, desired: set<Record>, dryRun: bool,
                                                   t: Table, now: Table, outcome: Outcome)
    requires Pass(resourceType, desired, dryRun, t, now, outcome) && outcome.Completed? && NoDuplicates(resourceType, t)
    ensures outcome.operations ==
            |StaticRecords(resourceType, t) - desired| + |desired - StaticRecords(resourceType, t)|
  {
    hide ToRecord, Unsortable, DynamicPart, Added;
    var stale := Stale(resourceType, t, desired, t.Keys);
    SameSize(resourceType, t, stale);
    forall r ensures r in StaticRecords(resourceType, t) - desired <==> r in RecordsOf(resourceType, t, stale) {
      if r in StaticRecords(resourceType, t) - desired {
        var i :| i in t && Static(t, i) && RecordOf(resourceType, t[i]) == r;
        assert i in stale;
      }
    }
    assert StaticRecords(resourceType, t) - desired == RecordsOf(resourceType, t, stale);
  }

  ghost function RecordsOf(resourceType: string, t: Table, ids: set<nat>): set<Record>
    requires ids <= t.Keys
  {
    set id | id in ids :: RecordOf(resourceType, t[id])
  }

  lemma {:induction false} SameSize(resourceType: string, t: Table, ids: set<nat>)
    requires NoDuplicates(resourceType, t) && ids <= t.Keys && forall id :: id in ids ==> Static(t, id)
    ensures |RecordsOf(resourceType, t, ids)| == |ids|
    decreases |ids|
  {
    hide ToRecord;
    if ids != {} {
      var id :| id in ids;
      SameSize(resourceType, t, ids - {id});
      assert RecordsOf(resourceType, t, ids) == RecordsOf(resourceType, t, ids - {id}) + {RecordOf(resourceType, t[id])};
      assert RecordOf(resourceType, t[id]) !in RecordsOf(resourceType, t, ids - {id});
    }
  }

  /** A completed pass that wanted canonical records leaves no duplicates, whatever was there before. */
  lemma {:induction false} PassLeavesNoDuplicates(resourceType: string, desired: set<Record>,
                                                  t: Table, now: Table, outcome: Outcome)
    requires resourceType != "" && Pass(resourceType, desired, false, t, now, outcome) && outcome.Completed?
    requires forall r :: r in desired ==> Canonical(resourceType, r)
    ensures NoDuplicates(resourceType, now)
  {
    hide ToRecord, Canonical, Unsortable, DynamicPart, Extends;
    var stale, missing := Stale(resourceType, t, desired, t.Keys), Missing(resourceType, t, desired);
    var kept := t - stale;
    KeptIsIntersection(resourceType, t, desired);
    CanonicalReadBacks(resourceType, missing);
    assert NoDuplicates(resourceType, kept) by {
      forall i, j | Static(kept, i) && Static(kept, j) && i != j
        ensures RecordOf(resourceType, kept[i]) != RecordOf(resourceType, kept[j])
      {
        assert i in t.Keys && j in t.Keys && Static(t, i) && Static(t, j);
      }
    }
  }

  lemma NothingToDo(resourceType: string, desired: set<Record>, t: Table)
    requires StaticRecords(resourceType, t) == desired && NoDuplicates(resourceType, t)
    ensures Missing(resourceType, t, desired) == {} && Stale(resourceType, t, desired, t.Keys) == {}
    ensures WantedOnce(resourceType, t, desired, t.Keys)
  {
    hide RecordOf;
    forall id | Static(t, id) ensures RecordOf(resourceType, t[id]) in desired {
      assert RecordOf(resourceType, t[id]) in StaticRecords(resourceType, t);
    }
  }

  lemma NothingAdded(resourceType: string, t: Table, now: Table)
    requires Added(resourceType, t, {}, now)
    ensures now == t
  {
    hide StaticRecords, DynamicPart, NoDuplicates, Faithful, ReadBacks;
  }

  /** A pass over a table that already holds the wanted records, once each, does nothing. */
  lemma {:induction false} QuietPass(resourceType: string, desired: set<Record>, dryRun: bool,
                                     t: Table, now: Table, outcome: Outcome)
    requires Pass(resourceType, desired, dryRun, t, now, outcome)
    requires StaticRecords(resourceType, t) == desired && NoDuplicates(resourceType, t)
    ensures outcome == Completed(0) && now == t
  {
    hide ToRecord, RecordOf, NoDuplicates, StaticRecords, Missing, Stale, WantedOnce, DynamicPart, Keyless, Added;
    NothingToDo(resourceType, desired, t);
    assert t - Stale(resourceType, t, desired, t.Keys) == t;
    if !dryRun {
      NothingAdded(resourceType, t, now);
    }
  }

  /** The pass after a completed one finds nothing to do: it completes with zero operations and changes nothing. */
  lemma {:induction false} SecondPassIsQuiet(resourceType: string, desired: set<Record>,
                                             t: Table, now: Table, first: Outcome, later: Table, second: Outcome)
    requires resourceType != ""
    ensures (&& Pass(resourceType, desired, false, t, now, first) && first.Completed?
             && (forall r :: r in desired ==> Canonical(resourceType, r))
             && Pass(resourceType, desired, false, now, later, second)) ==>
            second == Completed(0) && later == now && StaticRecords(resourceType, later) == desired
  {
    hide Pass, Canonical, NoDuplicates, StaticRecords;
    if Pass(resourceType, desired, false, t, now, first) && first.Completed? &&
       (forall r :: r in desired ==> Canonical(resourceType, r)) &&
       Pass(resourceType, desired, false, now, later, second)
    {
      ConvergesIff(resourceType, desired, t, now, first);
      PassLeavesNoDuplicates(resourceType, desired, t, now, first);
      QuietPass(resourceType, desired, false, now, later, second);
    }
  }

  /** A wildcard record as the zone file gives it: a regular expression instead of a name. */
  function Wildcard(regexp: string, address: string): Record {
    map[RESOURCE := STATIC, "type" := "A", "ttl" := "1h", "regexp" := regexp, "address" := address]
  }

  /** Two missing wildcard records end the pass with a TypeError, before anything is added. */
  lemma {:induction false} WildcardsRaise(r0: string, r1: string, address: string, dryRun: bool,
                                          now: Table, outcome: Outcome)
    requires r0 != r1
    ensures Pass(STATIC, {Wildcard(r0, address), Wildcard(r1, address)}, dryRun, map[], now, outcome) ==>
              outcome == TypeError
  {
    hide Extends, NoDuplicates;
    var a, b := Wildcard(r0, address), Wildcard(r1, address);
    assert a["regexp"] != b["regexp"];
    assert Keyless(a) && a in Missing(STATIC, map[], {a, b}) && b in Missing(STATIC, map[], {a, b});
    assert Missing(STATIC, map[], {a, b}) == {a, b} && |{a, b}| == 2;
  }

  /** Two equal entries for a wanted record end the pass with a KeyError. */
  lemma {:induction false} TwinsRaise(name: string, address: string, dryRun: bool, now: Table, outcome: Outcome)
    ensures var r: Record := map[RESOURCE := STATIC, "type" := "A", "name" := name, "address" := address];
      Pass(STATIC, {r}, dryRun, map[0 := NewEntry(r), 1 := NewEntry(r)], now, outcome) ==> outcome == KeyError
  {
    hide Extends, NoDuplicates;
    var r: Record := map[RESOURCE := STATIC, "type" := "A", "name" := name, "address" := address];
    var t: Table := map[0 := NewEntry(r), 1 := NewEntry(r)];
    assert Canonical(STATIC, r);
    CanonicalIff(STATIC, r);
    assert Static(t, 0) && Static(t, 1) && 0 in t.Keys && 1 in t.Keys;
    assert RecordOf(STATIC, t[0]) == r;
  }

  /** A record that is not canonical is never found on the router. */
  lemma NeverRead(resourceType: string, r: Record, t: Table)
    requires resourceType != "" && !Canonical(resourceType, r)
    ensures Missing(resourceType, t, {r}) == {r} && WantedOnce(resourceType, t, {r}, t.Keys)
    ensures forall id :: id in Stale(resourceType, t, {r}, t.Keys) <==> Static(t, id)
  {
    hide ToRecord, Canonical;
    StaticRecordsCanonical(resourceType, t);
    forall id | Static(t, id) ensures RecordOf(resourceType, t[id]) != r {
      assert RecordOf(resourceType, t[id]) in StaticRecords(resourceType, t);
    }
  }

  /** If it is the only one wanted, a pass always completes and leaves it unfound, and the next pass does two operations:
    * it removes what was made of the record and adds it again. */
  lemma {:induction false} NeverSettles(resourceType: string, r: Record, t: Table, now: Table, first: Outcome,
                                        later: Table, second: Outcome)
    requires resourceType != "" && !Canonical(resourceType, r)
    ensures (&& Pass(resourceType, {r}, false, t, now, first)
             && Pass(resourceType, {r}, false, now, later, second)) ==>
              first.Completed? && r !in StaticRecords(resourceType, now) && second == Completed(2)
  {
    hide ToRecord, Canonical, NoDuplicates, WantedOnce, Stale, Keyless, DynamicPart, StaticRecords, Missing;
    NeverRead(resourceType, r, t);
    NeverRead(resourceType, r, now);
    if Pass(resourceType, {r}, false, t, now, first) && Pass(resourceType, {r}, false, now, later, second) {
      var kept := t - Stale(resourceType, t, {r}, t.Keys);
      assert first.Completed? && Added(resourceType, kept, {r}, now);
      OneStatic(kept, r, now, Stale(resourceType, now, {r}, now.Keys));
      NotFound(resourceType, r, now);
    }
  }

  lemma NotFound(resourceType: string, r: Record, t: Table)
    requires Missing(resourceType, t, {r}) == {r}
    ensures r !in StaticRecords(resourceType, t)
  {
    assert r in Missing(resourceType, t, {r});
  }

  lemma OneStatic(kept: Table, r: Record, now: Table, statics: set<nat>)
    requires Extends(kept, {r}, now) && (forall id :: id in kept ==> !Static(kept, id))
    requires forall id :: id in statics <==> Static(now, id)
    ensures |statics| == 1
  {
    assert statics == now.Keys - kept.Keys;
    assert kept.Keys <= now.Keys;
  }

  /** A lease as the zone file gives it. */
  function Lease(mac: string, comment: string): Record {
    map[RESOURCE := LEASE, "mac-address" := mac, "comment" := comment]
  }

  /** So it is with a lease whose comment in the zone file is blank. */
  lemma {:induction false} BlankCommentNeverSettles(mac: string, t: Table, now: Table, first: Outcome,
                                                    later: Table, second: Outcome)
    ensures !Canonical(LEASE, Lease(mac, ""))
    ensures (&& Pass(LEASE, {Lease(mac, "")}, false, t, now, first)
             && Pass(LEASE, {Lease(mac, "")}, false, now, later, second)) ==>
              first.Completed? && Lease(mac, "") !in StaticRecords(LEASE, now) && second == Completed(2)
  {
    hide Pass, StaticRecords;
    assert Lease(mac, "")["comment"] == "";
    NeverSettles(LEASE, Lease(mac, ""), t, now, first, later, second);
  }

  /** A dry run reports what a real run would do. */
  lemma {:induction false} DryRunPredicts(resourceType: string, desired: set<Record>,
                                          t: Table, now: Table, dry: Outcome, actual: Outcome)
    requires Pass(resourceType, desired, true, t, t, dry) && Pass(resourceType, desired, false, t, now, actual)
    ensures dry == actual
  {
  }
}
