/** The summary figures of the analytics dashboard: a total, record counts
    grouped by owner and by target datamart (in first-occurrence order, as a
    JavaScript object keeps its keys), and the numbers of distinct stewards
    and owners. */
module Dashboard {
  import opened Records

  /** One `{ name, value }` entry of the pie or bar chart data. */
  datatype Entry = Entry(name: string, value: nat)

  datatype Stats = Stats(total: nat, stewards: nat, owners: nat, pieData: seq<Entry>, barData: seq<Entry>)

  const UNKNOWN_OWNER: string := "Unknown"
  const UNSPECIFIED_MART: string := "Unspecified"

  /** `req.data_owner || 'Unknown'`: a falsy (absent or empty) owner is grouped under the sentinel. */
  function OwnerKey(req: Fields): (owner: string)
    ensures owner != ""
    ensures Get(req, "data_owner") != "" ==> owner == Get(req, "data_owner")
    ensures Get(req, "data_owner") == "" ==> owner == UNKNOWN_OWNER
  {
    if Get(req, "data_owner") != "" then Get(req, "data_owner") else UNKNOWN_OWNER
  }

  /** `req.target_datamart || 'Unspecified'`. */
  function MartKey(req: Fields): (mart: string)
    ensures mart != ""
    ensures Get(req, "target_datamart") != "" ==> mart == Get(req, "target_datamart")
    ensures Get(req, "target_datamart") == "" ==> mart == UNSPECIFIED_MART
  {
    if Get(req, "target_datamart") != "" then Get(req, "target_datamart") else UNSPECIFIED_MART
  }

  function OwnerKeys(reqs: seq<Fields>): seq<string>
  {
    seq(|reqs|, i requires 0 <= i < |reqs| => OwnerKey(reqs[i]))
  }

  function MartKeys(reqs: seq<Fields>): seq<string>
  {
    seq(|reqs|, i requires 0 <= i < |reqs| => MartKey(reqs[i]))
  }

  /** The value of `key` in every record, "" where it is absent. */
  function Column(reqs: seq<Fields>, key: string): seq<string>
  {
    seq(|reqs|, i requires 0 <= i < |reqs| => Get(reqs[i], key))
  }

  // ---------------------------------------------------------------------
  // Reference definitions of the figures, independent of the loop.

  /** How many times `x` occurs in `keys`. */
  function Occurrences(keys: seq<string>, x: string): nat
  {
    if |keys| == 0 then 0
    else Occurrences(keys[..|keys| - 1], x) + (if keys[|keys| - 1] == x then 1 else 0)
  }

  /** The distinct elements of `keys`, each at the place of its first occurrence. */
  function FirstOccurrences(keys: seq<string>): seq<string>
  {
    if |keys| == 0 then []
    else
      var earlier := FirstOccurrences(keys[..|keys| - 1]);
      if keys[|keys| - 1] in earlier then earlier else earlier + [keys[|keys| - 1]]
  }

  /** One entry per distinct key, in first-occurrence order, holding its number of occurrences. */
  function GroupCounts(keys: seq<string>): seq<Entry>
  {
    var names := FirstOccurrences(keys);
    seq(|names|, j requires 0 <= j < |names| => Entry(names[j], Occurrences(keys, names[j])))
  }

  /** The set of non-empty values, as a JavaScript `Set` that only receives truthy values. */
  function DistinctTruthy(vals: seq<string>): set<string>
  {
    set x | x in vals && x != ""
  }

  function Names(entries: seq<Entry>): seq<string>
  {
    seq(|entries|, j requires 0 <= j < |entries| => entries[j].name)
  }

  function Sum(entries: seq<Entry>): nat
  {
    if |entries| == 0 then 0 else entries[0].value + Sum(entries[1..])
  }

  // ---------------------------------------------------------------------
  // The in-place step of the loop: `counts[name] = (counts[name] || 0) + 1`.

  /** Increments the entry named `name`, or appends a new entry with value 1. */
  function Increment(counts: seq<Entry>, name: string): (counts': seq<Entry>)
    ensures name in Names(counts')
    ensures |counts'| == if name in Names(counts) then |counts| else |counts| + 1
  {
    if |counts| == 0 then
      assert Names([Entry(name, 1)])[0] == name;
      [Entry(name, 1)]
    else
      assert Names(counts) == [counts[0].name] + Names(counts[1..]);
      if counts[0].name == name then
        var counts' := [Entry(name, counts[0].value + 1)] + counts[1..];
        assert Names(counts')[0] == name;
        counts'
      else
        var counts' := [counts[0]] + Increment(counts[1..], name);
        assert Names(counts') == [counts[0].name] + Names(Increment(counts[1..], name));
        counts'
  }

  /** Incrementing an existing name changes only that entry, by one. */
  lemma {:induction false} IncrementPresent(counts: seq<Entry>, name: string)
    requires name in Names(counts) && Distinct(Names(counts))
    ensures |Increment(counts, name)| == |counts|
    ensures forall j :: 0 <= j < |counts| ==>
      Increment(counts, name)[j] == if counts[j].name == name then Entry(name, counts[j].value + 1) else counts[j]
  {
    if counts[0].name != name {
      assert Names(counts[1..]) == Names(counts)[1..];
      IncrementPresent(counts[1..], name);
    } else {
      forall j | 1 <= j < |counts| ensures counts[j].name != name {
        assert Names(counts)[0] == name && Names(counts)[j] == counts[j].name;
      }
    }
  }

  /** Incrementing a new name appends it with count 1. */
  lemma {:induction false} IncrementAbsent(counts: seq<Entry>, name: string)
    requires name !in Names(counts)
    ensures Increment(counts, name) == counts + [Entry(name, 1)]
  {
    if |counts| > 0 {
      assert Names(counts)[0] == counts[0].name;
      assert Names(counts[1..]) == Names(counts)[1..];
      IncrementAbsent(counts[1..], name);
      assert counts == [counts[0]] + counts[1..];
    }
  }

  /** Every increment adds exactly one to the total of the counts. */
  lemma {:induction false} IncrementSum(counts: seq<Entry>, name: string)
    ensures Sum(Increment(counts, name)) == Sum(counts) + 1
  {
    if |counts| > 0 && counts[0].name != name {
      IncrementSum(counts[1..], name);
      assert ([counts[0]] + Increment(counts[1..], name))[1..] == Increment(counts[1..], name);
    } else if |counts| > 0 {
      assert ([Entry(name, counts[0].value + 1)] + counts[1..])[1..] == counts[1..];
    }
  }

  // ---------------------------------------------------------------------
  // Properties of the reference definitions.

  lemma {:induction false} FirstOccurrencesMembers(keys: seq<string>)
    ensures forall x :: x in FirstOccurrences(keys) <==> x in keys
    ensures Distinct(FirstOccurrences(keys))
  {
    if |keys| > 0 {
      var init := keys[..|keys| - 1];
      FirstOccurrencesMembers(init);
      assert keys == init + [keys[|keys| - 1]];
    }
  }

  lemma {:induction false} OccurrencesPositive(keys: seq<string>, x: string)
    ensures Occurrences(keys, x) > 0 <==> x in keys
  {
    if |keys| > 0 {
      var init := keys[..|keys| - 1];
      OccurrencesPositive(init, x);
      assert keys == init + [keys[|keys| - 1]];
    }
  }

  /** Counting one more key is incrementing its group: this ties the loop's
      in-place updates to the reference definition. */
  lemma GroupCountsSnoc(keys: seq<string>, x: string)
    ensures Increment(GroupCounts(keys), x) == GroupCounts(keys + [x])
  {
    var counts := GroupCounts(keys);
    assert Names(counts) == FirstOccurrences(keys);
    FirstOccurrencesMembers(keys);
    if x in FirstOccurrences(keys) {
      IncrementPresent(counts, x);
      SnocPresent(keys, x);
      var inc, grouped := Increment(counts, x), GroupCounts(keys + [x]);
      assert |inc| == |grouped|;
      forall j | 0 <= j < |inc| ensures inc[j] == grouped[j] { }
    } else {
      IncrementAbsent(counts, x);
      OccurrencesPositive(keys, x);
      SnocAbsent(keys, x);
    }
  }

  /** A key already grouped: the same names, the count of `x` one higher. */
  lemma SnocPresent(keys: seq<string>, x: string)
    requires x in FirstOccurrences(keys)
    ensures var counts := GroupCounts(keys);
      |GroupCounts(keys + [x])| == |counts| &&
      forall j :: 0 <= j < |counts| ==>
        GroupCounts(keys + [x])[j] == if counts[j].name == x then Entry(x, counts[j].value + 1) else counts[j]
  {
    var k' := keys + [x];
    assert k'[..|k'| - 1] == keys;
    assert FirstOccurrences(k') == FirstOccurrences(keys);
  }

  /** A new key: a group of one is appended after the existing ones. */
  lemma SnocAbsent(keys: seq<string>, x: string)
    requires x !in FirstOccurrences(keys) && Occurrences(keys, x) == 0
    ensures GroupCounts(keys + [x]) == GroupCounts(keys) + [Entry(x, 1)]
  {
    var k' := keys + [x];
    assert k'[..|k'| - 1] == keys;
    var names := FirstOccurrences(keys);
    assert FirstOccurrences(k') == names + [x];
    var counts := GroupCounts(keys);
    forall j | 0 <= j < |counts| ensures GroupCounts(k')[j] == counts[j] {
      assert (names + [x])[j] == names[j];
    }
  }

  /** Every key is counted exactly once: the group values add up to the number of keys. */
  lemma {:induction false} GroupCountsSum(keys: seq<string>)
    ensures Sum(GroupCounts(keys)) == |keys|
  {
    if |keys| > 0 {
      var init := keys[..|keys| - 1];
      GroupCountsSum(init);
      GroupCountsSnoc(init, keys[|keys| - 1]);
      IncrementSum(GroupCounts(init), keys[|keys| - 1]);
      assert init + [keys[|keys| - 1]] == keys;
    }
  }

  /** The groups are exactly the distinct keys, in first-occurrence order, and no group is empty. */
  lemma GroupCountsShape(keys: seq<string>)
    ensures Names(GroupCounts(keys)) == FirstOccurrences(keys)
    ensures Distinct(Names(GroupCounts(keys)))
    ensures forall x :: x in Names(GroupCounts(keys)) <==> x in keys
    ensures forall e :: e in GroupCounts(keys) ==> e.value >= 1 && e.value == Occurrences(keys, e.name)
  {
    FirstOccurrencesMembers(keys);
    forall e | e in GroupCounts(keys) ensures e.value >= 1 {
      OccurrencesPositive(keys, e.name);
    }
  }

  /** A sequence without repetitions has as many elements as its set. */
  lemma {:induction false} DistinctCard(s: seq<string>)
    requires Distinct(s)
    ensures |set x | x in s| == |s|
  {
    if |s| > 0 {
      var init := s[..|s| - 1];
      DistinctCard(init);
      assert (set x | x in s) == (set x | x in init) + {s[|s| - 1]};
    }
  }

  /** A set drawn from a sequence has at most as many elements as the sequence. */
  lemma {:induction false} SetOfSeqCard(s: seq<string>)
    ensures |set x | x in s| <= |s|
  {
    if |s| > 0 {
      var init := s[..|s| - 1];
      SetOfSeqCard(init);
      var earlier := set x | x in init;
      var all := set x | x in s;
      assert all <= earlier + {s[|s| - 1]};
      SubsetCard(all, earlier + {s[|s| - 1]});
      assert |earlier + {s[|s| - 1]}| <= |earlier| + 1;
    }
  }

  lemma DistinctTruthyBound(vals: seq<string>)
    ensures |DistinctTruthy(vals)| <= |vals|
  {
    SetOfSeqCard(vals);
    var all := set x | x in vals;
    SubsetCard(DistinctTruthy(vals), all);
  }

  /** There are as many pie entries as distinct owners, plus one for the
      "Unknown" group when some record has no owner and no real owner is
      called "Unknown". */
  lemma PieSizeBounds(reqs: seq<Fields>)
    ensures |DistinctTruthy(Column(reqs, "data_owner"))| <= |GroupCounts(OwnerKeys(reqs))|
    ensures |GroupCounts(OwnerKeys(reqs))| <= |DistinctTruthy(Column(reqs, "data_owner"))| + 1
  {
    var keys := OwnerKeys(reqs);
    var owners := DistinctTruthy(Column(reqs, "data_owner"));
    var groups := set x | x in keys;
    GroupCountsShape(keys);
    FirstOccurrencesMembers(keys);
    DistinctCard(FirstOccurrences(keys));
    assert (set x | x in FirstOccurrences(keys)) == groups;
    forall x | x in owners ensures x in groups {
      var i :| 0 <= i < |reqs| && Column(reqs, "data_owner")[i] == x;
      assert keys[i] == x;
    }
    forall x | x in groups ensures x in owners + {UNKNOWN_OWNER} {
      var i :| 0 <= i < |reqs| && keys[i] == x;
      assert x != UNKNOWN_OWNER ==> Column(reqs, "data_owner")[i] == x;
    }
    assert owners <= groups <= owners + {UNKNOWN_OWNER};
    SubsetCard(owners, groups);
    SubsetCard(groups, owners + {UNKNOWN_OWNER});
  }

  lemma SubsetCard(a: set<string>, b: set<string>)
    requires a <= b
    ensures |a| <= |b|
  {
    assert b == a + (b - a);
  }

  /** With no records every figure is zero and both charts are empty. */
  lemma EmptyStats()
    ensures GroupCounts(OwnerKeys([])) == [] && GroupCounts(MartKeys([])) == []
    ensures |DistinctTruthy(Column([], "data_steward"))| == 0
    ensures |DistinctTruthy(Column([], "data_owner"))| == 0
  {
    assert DistinctTruthy([]) == {};
  }

  /** The conservation laws of the figures: each grouping counts every record
      exactly once, and no distinct count exceeds the number of records. */
  lemma StatsLaws(reqs: seq<Fields>)
    ensures Sum(GroupCounts(OwnerKeys(reqs))) == |reqs| && Sum(GroupCounts(MartKeys(reqs))) == |reqs|
    ensures |DistinctTruthy(Column(reqs, "data_steward"))| <= |reqs|
    ensures |DistinctTruthy(Column(reqs, "data_owner"))| <= |reqs|
    ensures |DistinctTruthy(Column(reqs, "data_owner"))| <= |GroupCounts(OwnerKeys(reqs))|
    ensures |GroupCounts(OwnerKeys(reqs))| <= |DistinctTruthy(Column(reqs, "data_owner"))| + 1
  {
    GroupCountsSum(OwnerKeys(reqs));
    GroupCountsSum(MartKeys(reqs));
    DistinctTruthyBound(Column(reqs, "data_steward"));
    DistinctTruthyBound(Column(reqs, "data_owner"));
    PieSizeBounds(reqs);
  }

  /** What one more record does to the two groupings. */
  lemma GroupsStep(seen: seq<Fields>, req: Fields)
    ensures GroupCounts(OwnerKeys(seen + [req])) == Increment(GroupCounts(OwnerKeys(seen)), OwnerKey(req))
    ensures GroupCounts(MartKeys(seen + [req])) == Increment(GroupCounts(MartKeys(seen)), MartKey(req))
  {
    assert OwnerKeys(seen + [req]) == OwnerKeys(seen) + [OwnerKey(req)];
    GroupCountsSnoc(OwnerKeys(seen), OwnerKey(req));
    assert MartKeys(seen + [req]) == MartKeys(seen) + [MartKey(req)];
    GroupCountsSnoc(MartKeys(seen), MartKey(req));
  }

  /** What one more record does to the set of distinct values of `key`. */
  lemma DistinctStep(seen: seq<Fields>, req: Fields, key: string)
    ensures DistinctTruthy(Column(seen + [req], key)) ==
      DistinctTruthy(Column(seen, key)) + (if Get(req, key) != "" then {Get(req, key)} else {})
  {
    assert Column(seen + [req], key) == Column(seen, key) + [Get(req, key)];
  }

  /** Two records owned by Finance and one without an owner give the groups
      Finance: 2 and Unknown: 1, in that order; stewards A, "", A, B count as
      two distinct stewards. */
  lemma Examples()
    ensures GroupCounts(OwnerKeys([map["data_owner" := "Finance"], map["data_owner" := ""], map["data_owner" := "Finance"]]))
      == [Entry("Finance", 2), Entry(UNKNOWN_OWNER, 1)]
    ensures |DistinctTruthy(["A", "", "A", "B"])| == 2
  {
    var k1 := ["Finance"];
    var k2 := k1 + [UNKNOWN_OWNER];
    var keys := k2 + ["Finance"];
    assert k1[..0] == [] && k2[..1] == k1 && keys[..2] == k2;
    assert FirstOccurrences(k1) == ["Finance"];
    assert FirstOccurrences(k2) == ["Finance", UNKNOWN_OWNER];
    assert FirstOccurrences(keys) == ["Finance", UNKNOWN_OWNER];
    assert Occurrences(k1, "Finance") == 1 && Occurrences(k1, UNKNOWN_OWNER) == 0;
    assert Occurrences(keys, "Finance") == 2;
    assert Occurrences(keys, UNKNOWN_OWNER) == 1;
    assert keys == ["Finance", UNKNOWN_OWNER, "Finance"];
    var reqs: seq<Fields> := [map["data_owner" := "Finance"], map["data_owner" := ""], map["data_owner" := "Finance"]];
    assert OwnerKeys(reqs) == keys;
    assert DistinctTruthy(["A", "", "A", "B"]) == {"A", "B"};
  }

  // ---------------------------------------------------------------------
  // The computation itself.

  /** The `stats` memo: one pass over the records that increments two count
      dictionaries and fills two sets in place, then projects the dictionaries
      to chart entries. */
  method ComputeStats(requirements: seq<Fields>) returns (stats: Stats)
    ensures stats.total == |requirements|
    ensures stats.pieData == GroupCounts(OwnerKeys(requirements))
    ensures stats.barData == GroupCounts(MartKeys(requirements))
    ensures stats.stewards == |DistinctTruthy(Column(requirements, "data_steward"))|
    ensures stats.owners == |DistinctTruthy(Column(requirements, "data_owner"))|
    ensures Sum(stats.pieData) == stats.total && Sum(stats.barData) == stats.total
    ensures stats.stewards <= stats.total && stats.owners <= stats.total
    ensures stats.owners <= |stats.pieData| <= stats.owners + 1
  {
    var teamCounts: seq<Entry> := [];
    var martCounts: seq<Entry> := [];
    var uniqueStewards: set<string> := {};
    var uniqueOwners: set<string> := {};
    for i := 0 to |requirements|
      invariant teamCounts == GroupCounts(OwnerKeys(requirements[..i]))
      invariant martCounts == GroupCounts(MartKeys(requirements[..i]))
      invariant uniqueStewards == DistinctTruthy(Column(requirements[..i], "data_steward"))
      invariant uniqueOwners == DistinctTruthy(Column(requirements[..i], "data_owner"))
    {
      var req := requirements[i];
      GroupsStep(requirements[..i], req);
      DistinctStep(requirements[..i], req, "data_steward");
      DistinctStep(requirements[..i], req, "data_owner");
      assert requirements[..i + 1] == requirements[..i] + [req];
      teamCounts := Increment(teamCounts, OwnerKey(req));
      martCounts := Increment(martCounts, MartKey(req));
      if Get(req, "data_steward") != "" {
        uniqueStewards := uniqueStewards + {Get(req, "data_steward")};
      }
      if Get(req, "data_owner") != "" {
        uniqueOwners := uniqueOwners + {Get(req, "data_owner")};
      }
    }
    assert requirements[..|requirements|] == requirements;
    stats := Stats(|requirements|, |uniqueStewards|, |uniqueOwners|, teamCounts, martCounts);

    StatsLaws(requirements);
  }
}
