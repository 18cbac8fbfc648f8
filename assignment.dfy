/**
 * assign_chromosomes: one status row per query chromosome, in key order.
 * A chromosome in the split list is `split`; otherwise one in the fusion list
 * is `fusion`; any other is `ancestral`, assigned to a most frequent
 * reference chromosome among the reference loci of its markers, with that
 * chromosome's count and the number of markers found in the reference.
 *
 * The split list holds REFERENCE chromosome names (it is computed from the
 * reference chromosome dict) and is tested against QUERY chromosome names,
 * so a query chromosome is `split` only when it shares a name with a split
 * reference chromosome. The model keeps this comparison as written.
 */
module Assignment {
  import opened Util
  import opened BuscoTable
  import opened Majority
  import opened FusionSplit

  /** The status column, with the assigned chromosome and the two counts of an ancestral row. */
  datatype Status =
    | Ancestral(refChr: Chr, refBuscos: nat, totalBuscos: nat)
    | Split
    | Fusion

  /** One row of `chromosome_assignments.tsv`, without the proportion column. */
  datatype Row = Row(queryChr: Chr, status: Status)

  /** `st` is a status lines 51-65 may write for query chromosome `c`. */
  ghost predicate StatusFor(c: Chr, st: Status, qc2b: map<Chr, seq<Id>>, refMarkers: map<Id, Locus>,
                            split: seq<Chr>, fusion: seq<Chr>)
    requires c in qc2b
  {
    if c in split then st == Split
    else if c in fusion then st == Fusion
    else
      var d := Destinations(qc2b[c], refMarkers);
      && st.Ancestral?
      && IsMode(d, st.refChr)
      && st.refBuscos == Count(d, st.refChr)
      && st.totalBuscos == |d|
  }

  /** The rows are one per key of `order`, in the same order, each with a status StatusFor allows. */
  ghost predicate IsAssignment(rows: seq<Row>, order: seq<Chr>, qc2b: map<Chr, seq<Id>>,
                               refMarkers: map<Id, Locus>, split: seq<Chr>, fusion: seq<Chr>)
    requires forall c :: c in order ==> c in qc2b
  {
    && |rows| == |order|
    && forall i :: 0 <= i < |rows| ==>
         rows[i].queryChr == order[i] && StatusFor(order[i], rows[i].status, qc2b, refMarkers, split, fusion)
  }

  /** The `i`-th query chromosome is put to the vote but has no marker in the reference dict. */
  predicate Unassignable(order: seq<Chr>, qc2b: map<Chr, seq<Id>>, refMarkers: map<Id, Locus>,
                         split: seq<Chr>, fusion: seq<Chr>, i: int)
    requires forall c :: c in order ==> c in qc2b
  {
    && 0 <= i < |order|
    && order[i] !in split && order[i] !in fusion
    && Destinations(qc2b[order[i]], refMarkers) == []
  }

  /**
   * What assign_chromosomes may produce: the rows, or the ValueError of line
   * 58 at the first query chromosome put to the vote that has no reference
   * destination.
   */
  ghost predicate Assigned(r: Result<seq<Row>, VoteError>, order: seq<Chr>, qc2b: map<Chr, seq<Id>>,
                           refMarkers: map<Id, Locus>, split: seq<Chr>, fusion: seq<Chr>)
    requires forall c :: c in order ==> c in qc2b
  {
    && (r.Success? <==> forall i :: 0 <= i < |order| ==> !Unassignable(order, qc2b, refMarkers, split, fusion, i))
    && (r.Failure? ==>
          exists i :: Unassignable(order, qc2b, refMarkers, split, fusion, i) && r.error.chr == order[i]
                      && forall j :: 0 <= j < i ==> !Unassignable(order, qc2b, refMarkers, split, fusion, j))
    && (r.Success? ==> IsAssignment(r.value, order, qc2b, refMarkers, split, fusion))
  }

  /**
   * assign_chromosomes (lines 50-65) without the file it writes. Of the
   * tables it receives only the query chromosome dict and the reference
   * marker dict are read.
   */
  method AssignChromosomes(order: seq<Chr>, qc2b: map<Chr, seq<Id>>, refMarkers: map<Id, Locus>,
                           split: seq<Chr>, fusion: seq<Chr>)
    returns (r: Result<seq<Row>, VoteError>)
    requires forall c :: c in order ==> c in qc2b
    ensures Assigned(r, order, qc2b, refMarkers, split, fusion)
  {
    var rows: seq<Row> := [];
    for i := 0 to |order|
      invariant |rows| == i
      invariant forall k :: 0 <= k < i ==>
        rows[k].queryChr == order[k] && StatusFor(order[k], rows[k].status, qc2b, refMarkers, split, fusion)
      invariant forall k :: 0 <= k < i ==> !Unassignable(order, qc2b, refMarkers, split, fusion, k)
    {
      var c := order[i];
      if c !in split && c !in fusion {
        var dest := CollectDestinations(qc2b[c], refMarkers);
        if dest == [] {
          assert Unassignable(order, qc2b, refMarkers, split, fusion, i);
          return Failure(EmptyDestinations(c));
        }
        ModeExists(dest);
        var top :| IsMode(dest, top);
        rows := rows + [Row(c, Ancestral(top, Count(dest, top), |dest|))];
      } else if c in split {
        rows := rows + [Row(c, Split)];
      } else {
        rows := rows + [Row(c, Fusion)];
      }
    }
    r := Success(rows);
  }

  /**
   * An ancestral row's assigned count is the largest count of any reference
   * chromosome, at least 1 and at most the total: its proportion lies in (0, 1].
   */
  lemma AncestralBounds(rows: seq<Row>, order: seq<Chr>, qc2b: map<Chr, seq<Id>>, refMarkers: map<Id, Locus>,
                        split: seq<Chr>, fusion: seq<Chr>, i: nat)
    requires forall c :: c in order ==> c in qc2b
    requires IsAssignment(rows, order, qc2b, refMarkers, split, fusion)
    requires i < |rows| && rows[i].status.Ancestral?
    ensures var st := rows[i].status;
      && st.refBuscos == MaxCount(Destinations(qc2b[order[i]], refMarkers))
      && 1 <= st.refBuscos <= st.totalBuscos
  {
    ModeCount(Destinations(qc2b[order[i]], refMarkers), rows[i].status.refChr);
  }

  /**
   * Two runs on the same input differ at most in which most frequent
   * reference chromosome an ancestral row names: the statuses and the counts
   * agree, so only the tie-break of line 58 is left open.
   */
  lemma AssignmentUpToTieBreak(rows1: seq<Row>, rows2: seq<Row>, order: seq<Chr>, qc2b: map<Chr, seq<Id>>,
                               refMarkers: map<Id, Locus>, split: seq<Chr>, fusion: seq<Chr>)
    requires forall c :: c in order ==> c in qc2b
    requires IsAssignment(rows1, order, qc2b, refMarkers, split, fusion)
    requires IsAssignment(rows2, order, qc2b, refMarkers, split, fusion)
    ensures |rows1| == |rows2|
    ensures forall i :: 0 <= i < |rows1| ==>
      && rows1[i].queryChr == rows2[i].queryChr
      && (rows1[i].status.Ancestral? <==> rows2[i].status.Ancestral?)
      && (rows1[i].status.Ancestral? ==>
            rows1[i].status.refBuscos == rows2[i].status.refBuscos && rows1[i].status.totalBuscos == rows2[i].status.totalBuscos)
      && (!rows1[i].status.Ancestral? ==> rows1[i].status == rows2[i].status)
  {
    forall i | 0 <= i < |rows1| && rows1[i].status.Ancestral?
      ensures rows1[i].status.refBuscos == rows2[i].status.refBuscos
    {
      AncestralBounds(rows1, order, qc2b, refMarkers, split, fusion, i);
      AncestralBounds(rows2, order, qc2b, refMarkers, split, fusion, i);
    }
  }

  /**
   * A query chromosome put to the vote whose found markers all lie on one
   * reference chromosome `y` is assigned to `y` with all of them: proportion 1.
   */
  lemma UnanimousRow(rows: seq<Row>, order: seq<Chr>, qc2b: map<Chr, seq<Id>>, refMarkers: map<Id, Locus>,
                     split: seq<Chr>, fusion: seq<Chr>, i: nat, y: Chr)
    requires forall c :: c in order ==> c in qc2b
    requires IsAssignment(rows, order, qc2b, refMarkers, split, fusion)
    requires i < |rows| && order[i] !in split && order[i] !in fusion
    requires forall x :: x in Destinations(qc2b[order[i]], refMarkers) ==> x == y
    ensures var n := |Destinations(qc2b[order[i]], refMarkers)|;
      rows[i].status == Ancestral(y, n, n)
  {
    var d := Destinations(qc2b[order[i]], refMarkers);
    UnanimousCount(d, y);
  }
}
