/** `groupByDate` and `groupByActivity` (backend/src/Trips.ts): the
    registrations bucketed by one of their fields, each bucket keeping the
    registrations' order. */
module Grouping {
  import opened Seqs
  import opened Attendance

  datatype Field = Date | Activity

  function FieldOf(f: Field, g: Registration): string
  {
    match f
    case Date => g.date
    case Activity => g.activityType
  }

  function HasField(f: Field, k: string): Registration -> bool
  {
    (g: Registration) => FieldOf(f, g) == k
  }

  /** The `reduce`: each registration is appended to the bucket of its field,
      the bucket being opened on first use. */
  function GroupByField(regs: seq<Registration>, f: Field): map<string, seq<Registration>>
  {
    if regs == [] then map[]
    else
      var acc := GroupByField(regs[..|regs| - 1], f);
      var g := regs[|regs| - 1];
      var k := FieldOf(f, g);
      acc[k := (if k in acc then acc[k] else []) + [g]]
  }

  function GroupByDate(regs: seq<Registration>): map<string, seq<Registration>>
  {
    GroupByField(regs, Date)
  }

  function GroupByActivity(regs: seq<Registration>): map<string, seq<Registration>>
  {
    GroupByField(regs, Activity)
  }

  /** There is one bucket per value of the field, and the bucket of `k` holds
      exactly the registrations whose field is `k`, in their order. */
  lemma {:induction false} GroupByFieldSpec(regs: seq<Registration>, f: Field)
    ensures GroupByField(regs, f).Keys == set i | 0 <= i < |regs| :: FieldOf(f, regs[i])
    ensures forall k | k in GroupByField(regs, f) :: GroupByField(regs, f)[k] == Filter(regs, HasField(f, k))
  {
    if regs != [] {
      var init := regs[..|regs| - 1];
      var g := regs[|regs| - 1];
      GroupByFieldSpec(init, f);
      assert regs == init + [g];
      forall k | k in GroupByField(regs, f)
        ensures GroupByField(regs, f)[k] == Filter(regs, HasField(f, k))
      {
        BucketOfSnoc(regs, init, g, f, k);
      }
      FieldsOfSnoc(regs, init, g, f);
    }
  }

  /** The inductive step for one bucket: appending `g` extends the bucket of
      its field by `g` and leaves the others as they were. */
  lemma BucketOfSnoc(regs: seq<Registration>, init: seq<Registration>, g: Registration, f: Field, k: string)
    requires regs == init + [g] && k in GroupByField(regs, f)
    requires GroupByField(init, f).Keys == set i | 0 <= i < |init| :: FieldOf(f, init[i])
    requires forall k | k in GroupByField(init, f) :: GroupByField(init, f)[k] == Filter(init, HasField(f, k))
    ensures GroupByField(regs, f)[k] == Filter(regs, HasField(f, k))
  {
    assert regs[..|regs| - 1] == init;
    FilterAppend(init, [g], HasField(f, k));
    assert [g][1..] == [];
    if k !in GroupByField(init, f) {
      FilterAbsent(init, HasField(f, k), f, k);
    }
  }

  /** The field values of a non-empty list are those of all but its last
      element, plus the last one's. */
  lemma FieldsOfSnoc(regs: seq<Registration>, init: seq<Registration>, g: Registration, f: Field)
    requires regs == init + [g]
    ensures (set i | 0 <= i < |regs| :: FieldOf(f, regs[i])) ==
      (set i | 0 <= i < |init| :: FieldOf(f, init[i])) + {FieldOf(f, g)}
  {
    var all := set i | 0 <= i < |regs| :: FieldOf(f, regs[i]);
    var front := set i | 0 <= i < |init| :: FieldOf(f, init[i]);
    forall x | x in all
      ensures x in front + {FieldOf(f, g)}
    {
      var i :| 0 <= i < |regs| && FieldOf(f, regs[i]) == x;
      if i < |init| {
        assert init[i] == regs[i];
      }
    }
    forall x | x in front
      ensures x in all
    {
      var i :| 0 <= i < |init| && FieldOf(f, init[i]) == x;
      assert init[i] == regs[i];
    }
    assert FieldOf(f, regs[|init|]) in all;
  }

  lemma {:induction false} FilterAbsent(regs: seq<Registration>, p: Registration -> bool, f: Field, k: string)
    requires p == HasField(f, k)
    requires forall i | 0 <= i < |regs| :: FieldOf(f, regs[i]) != k
    ensures Filter(regs, p) == []
  {
    if regs != [] {
      FilterAbsent(regs[1..], p, f, k);
    }
  }
}
