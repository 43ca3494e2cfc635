/**
 * `ARP_Cache` of twig-utils.h: a fixed array of 100 (MAC, IP, last-seen)
 * entries and a count. Observing a pair refreshes the time of the entry
 * holding it, or appends a new entry; once the array is full nothing changes
 * at all, not even the time of an entry already present.
 */
module AddressCache {
  import opened Bytes
  import opened Wrappers

  const CAPACITY: nat := 100

  datatype Entry = Entry(mac: seq<uint8>, ip: seq<uint8>, lastSeen: int)

  /** The two `memcmp` tests of `add_entry`. */
  predicate Matches(e: Entry, mac: seq<uint8>, ip: seq<uint8>)
  {
    e.mac == mac && e.ip == ip
  }

  /** No (MAC, IP) pair is held by two entries. */
  ghost predicate Distinct(entries: seq<Entry>)
  {
    forall i, j :: 0 <= i < j < |entries| ==> !Matches(entries[j], entries[i].mac, entries[i].ip)
  }

  /** The index the scan of `add_entry` stops at: the first entry holding the pair. */
  function FindEntry(entries: seq<Entry>, mac: seq<uint8>, ip: seq<uint8>): (r: Option<nat>)
    ensures r.Some? ==> r.value < |entries| && Matches(entries[r.value], mac, ip)
    ensures r.Some? ==> forall j :: 0 <= j < r.value ==> !Matches(entries[j], mac, ip)
    ensures r.None? ==> forall j :: 0 <= j < |entries| ==> !Matches(entries[j], mac, ip)
    decreases |entries|
  {
    if entries == [] then None
    else
      var n := |entries| - 1;
      var earlier := FindEntry(entries[..n], mac, ip);
      if earlier.Some? then earlier
      else if Matches(entries[n], mac, ip) then Some(n)
      else None
  }

  /** The entries after `add_entry(mac, ip)` at time `now`. */
  function Observe(entries: seq<Entry>, mac: seq<uint8>, ip: seq<uint8>, now: int): seq<Entry>
  {
    if |entries| >= CAPACITY then entries
    else match FindEntry(entries, mac, ip)
      case Some(i) => entries[i := entries[i].(lastSeen := now)]
      case None => entries + [Entry(mac, ip, now)]
  }

  class ArpCache {
    var entries: array<Entry>
    var count: int

    ghost predicate Valid()
      reads this, entries
    {
      entries.Length == CAPACITY && 0 <= count <= CAPACITY && Distinct(entries[..count])
    }

    /** The live entries, `entries[0..count-1]`. */
    ghost function Contents(): seq<Entry>
      reads this, entries
      requires Valid()
    {
      entries[..count]
    }

    /** `ARP_Cache()`: count starts at 0. */
    constructor ()
      ensures Valid() && fresh(entries) && Contents() == []
    {
      entries := new Entry[CAPACITY](_ => Entry([], [], 0));
      count := 0;
    }

    /** `add_entry`, with the clock reading `time(NULL)` passed as `now`. */
    method AddEntry(mac: seq<uint8>, ip: seq<uint8>, now: int)
      requires Valid() && |mac| == 6 && |ip| == 4
      modifies this`count, entries
      ensures Valid()
      ensures Contents() == Observe(old(Contents()), mac, ip, now)
    {
      ghost var before := Contents();
      ObserveKeepsDistinct(before, mac, ip, now);
      if count < CAPACITY {
        for i := 0 to count
          invariant entries[..count] == before
          invariant forall j :: 0 <= j < i ==> !Matches(entries[j], mac, ip)
        {
          if entries[i].mac == mac && entries[i].ip == ip {
            assert FindEntry(before, mac, ip) == Some(i);
            entries[i] := entries[i].(lastSeen := now);
            assert entries[..count] == before[i := before[i].(lastSeen := now)];
            return;
          }
        }
        assert FindEntry(before, mac, ip) == None;
        entries[count] := Entry(mac, ip, now);
        count := count + 1;
        assert entries[..count] == before + [Entry(mac, ip, now)];
      }
    }
  }

  /** The cache never grows past its capacity. */
  lemma ObserveBounded(entries: seq<Entry>, mac: seq<uint8>, ip: seq<uint8>, now: int)
    requires |entries| <= CAPACITY
    ensures |Observe(entries, mac, ip, now)| <= CAPACITY
    ensures |Observe(entries, mac, ip, now)| == |entries| + (if |entries| < CAPACITY && FindEntry(entries, mac, ip).None? then 1 else 0)
  {
  }

  /** Observing a pair the cache already holds, below capacity, only sets
      that entry's time to `now`. */
  lemma {:induction false} ObserveRefreshes(entries: seq<Entry>, i: nat, now: int)
    requires |entries| < CAPACITY && Distinct(entries) && i < |entries|
    ensures var r := Observe(entries, entries[i].mac, entries[i].ip, now);
      && |r| == |entries|
      && r[i] == entries[i].(lastSeen := now)
      && forall j :: 0 <= j < |entries| && j != i ==> r[j] == entries[j]
  {
    var k := FindEntry(entries, entries[i].mac, entries[i].ip);
    assert k == Some(i) by {
      assert Matches(entries[i], entries[i].mac, entries[i].ip);
    }
  }

  /** Observing a new pair below capacity appends it with time `now`. */
  lemma ObserveAppends(entries: seq<Entry>, mac: seq<uint8>, ip: seq<uint8>, now: int)
    requires |entries| < CAPACITY
    requires forall j :: 0 <= j < |entries| ==> !Matches(entries[j], mac, ip)
    ensures Observe(entries, mac, ip, now) == entries + [Entry(mac, ip, now)]
  {
  }

  /** A full cache ignores every observation. */
  lemma ObserveSaturated(entries: seq<Entry>, mac: seq<uint8>, ip: seq<uint8>, now: int)
    requires |entries| == CAPACITY
    ensures Observe(entries, mac, ip, now) == entries
  {
  }

  /** No observation ever makes two entries share a pair. */
  lemma {:induction false} ObserveKeepsDistinct(entries: seq<Entry>, mac: seq<uint8>, ip: seq<uint8>, now: int)
    requires Distinct(entries)
    ensures Distinct(Observe(entries, mac, ip, now))
  {
    var r := Observe(entries, mac, ip, now);
    if |entries| < CAPACITY && FindEntry(entries, mac, ip).None? {
      forall i, j | 0 <= i < j < |r|
        ensures !Matches(r[j], r[i].mac, r[i].ip)
      {
        if j == |entries| {
          assert !Matches(entries[i], mac, ip);
        }
      }
    }
  }

  /** One observation: a sighting of a (MAC, IP) pair at a time. */
  datatype Sighting = Sighting(mac: seq<uint8>, ip: seq<uint8>, at: int)

  function ObserveAll(entries: seq<Entry>, sightings: seq<Sighting>): seq<Entry>
    decreases |sightings|
  {
    if sightings == [] then entries
    else ObserveAll(Observe(entries, sightings[0].mac, sightings[0].ip, sightings[0].at), sightings[1..])
  }

  ghost predicate DistinctSightings(sightings: seq<Sighting>)
  {
    forall i, j :: 0 <= i < j < |sightings| ==>
      (sightings[i].mac, sightings[i].ip) != (sightings[j].mac, sightings[j].ip)
  }

  /** The entries a run of distinct sightings leaves: the first ones, in order,
      up to the capacity; the later ones are simply never added. */
  function Admitted(sightings: seq<Sighting>, room: nat): seq<Entry>
    decreases |sightings|
  {
    if sightings == [] || room == 0 then []
    else [Entry(sightings[0].mac, sightings[0].ip, sightings[0].at)] + Admitted(sightings[1..], room - 1)
  }

  /** Starting from the empty cache, distinct sightings fill it in order up
      to the capacity and no further. */
  lemma FillsThenSaturates(sightings: seq<Sighting>)
    requires DistinctSightings(sightings)
    ensures ObserveAll([], sightings) == Admitted(sightings, CAPACITY)
    ensures |ObserveAll([], sightings)| == if |sightings| < CAPACITY then |sightings| else CAPACITY
  {
    FillsFrom([], sightings);
    AdmittedLength(sightings, CAPACITY);
  }

  /** No entry holds the pair of any sighting. */
  ghost predicate Unmatched(entries: seq<Entry>, sightings: seq<Sighting>)
  {
    forall i, j :: 0 <= i < |entries| && 0 <= j < |sightings| ==>
      !Matches(entries[i], sightings[j].mac, sightings[j].ip)
  }

  lemma {:induction false} FillsFrom(entries: seq<Entry>, sightings: seq<Sighting>)
    requires |entries| <= CAPACITY && DistinctSightings(sightings)
    requires Unmatched(entries, sightings)
    ensures ObserveAll(entries, sightings) == entries + Admitted(sightings, CAPACITY - |entries|)
    decreases |sightings|
  {
    if sightings == [] {
      assert entries + [] == entries;
    } else {
      var s := sightings[0];
      assert ObserveAll(entries, sightings) == ObserveAll(Observe(entries, s.mac, s.ip, s.at), sightings[1..]);
      UnmatchedTail(entries, sightings);
      if |entries| == CAPACITY {
        ObserveSaturated(entries, s.mac, s.ip, s.at);
        FillsFrom(entries, sightings[1..]);
        assert entries + [] == entries;
      } else {
        var next := entries + [Entry(s.mac, s.ip, s.at)];
        assert forall j :: 0 <= j < |entries| ==> !Matches(entries[j], s.mac, s.ip) by {
          assert Unmatched(entries, sightings);
        }
        ObserveAppends(entries, s.mac, s.ip, s.at);
        UnmatchedAfterAppend(entries, sightings);
        FillsFrom(next, sightings[1..]);
        AdmitsFirst(sightings, CAPACITY - |entries|);
        AppendAssoc(entries, [Entry(s.mac, s.ip, s.at)], Admitted(sightings[1..], CAPACITY - |next|));
      }
    }
  }

  lemma AdmitsFirst(sightings: seq<Sighting>, room: nat)
    requires sightings != [] && room > 0
    ensures Admitted(sightings, room)
      == [Entry(sightings[0].mac, sightings[0].ip, sightings[0].at)] + Admitted(sightings[1..], room - 1)
  {
  }

  lemma AppendAssoc(a: seq<Entry>, b: seq<Entry>, c: seq<Entry>)
    ensures (a + b) + c == a + (b + c)
  {
  }

  lemma UnmatchedTail(entries: seq<Entry>, sightings: seq<Sighting>)
    requires sightings != [] && Unmatched(entries, sightings) && DistinctSightings(sightings)
    ensures Unmatched(entries, sightings[1..]) && DistinctSightings(sightings[1..])
  {
    forall i, j | 0 <= i < |entries| && 0 <= j < |sightings[1..]|
      ensures !Matches(entries[i], sightings[1..][j].mac, sightings[1..][j].ip)
    {
      assert sightings[1..][j] == sightings[j + 1];
    }
    forall i, j | 0 <= i < j < |sightings[1..]|
      ensures (sightings[1..][i].mac, sightings[1..][i].ip) != (sightings[1..][j].mac, sightings[1..][j].ip)
    {
      assert sightings[1..][i] == sightings[i + 1] && sightings[1..][j] == sightings[j + 1];
    }
  }

  /** The first sighting, once added, matches none of the later ones. */
  lemma {:induction false} UnmatchedAfterAppend(entries: seq<Entry>, sightings: seq<Sighting>)
    requires sightings != [] && Unmatched(entries, sightings) && DistinctSightings(sightings)
    ensures Unmatched(entries + [Entry(sightings[0].mac, sightings[0].ip, sightings[0].at)], sightings[1..])
  {
    var next := entries + [Entry(sightings[0].mac, sightings[0].ip, sightings[0].at)];
    forall i, j | 0 <= i < |next| && 0 <= j < |sightings[1..]|
      ensures !Matches(next[i], sightings[1..][j].mac, sightings[1..][j].ip)
    {
      assert sightings[1..][j] == sightings[j + 1];
      if i == |entries| {
        assert (sightings[0].mac, sightings[0].ip) != (sightings[j + 1].mac, sightings[j + 1].ip);
      } else {
        assert next[i] == entries[i];
      }
    }
  }

  lemma {:induction false} AdmittedLength(sightings: seq<Sighting>, room: nat)
    ensures |Admitted(sightings, room)| == if |sightings| < room then |sightings| else room
    decreases |sightings|
  {
    if sightings != [] && room != 0 {
      AdmittedLength(sightings[1..], room - 1);
    }
  }
}
