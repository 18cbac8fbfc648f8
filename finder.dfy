/**
 * The chain run by the script's entry point: read both tables, classify
 * reference against query (split chromosomes) and query against reference
 * (fused chromosomes), then assign a status to every query chromosome.
 * Reading the files, the command line and the printed summaries are not
 * modelled; the tables arrive as token lines and `min_proportion` as a Ratio.
 */
module Finder {
  import opened Util
  import opened BuscoTable
  import opened Majority
  import opened FusionSplit
  import opened Assignment

  /** Which step raised. */
  datatype FinderError =
    | ReferenceParse(parseError: ParseError)
    | QueryParse(parseError: ParseError)
    | SplitVote(voteError: VoteError)
    | FusionVote(voteError: VoteError)
    | AssignVote(voteError: VoteError)

  /** The result of assign_chromosomes as a result of the whole run. */
  function FromAssign(a: Result<seq<Row>, VoteError>): Result<seq<Row>, FinderError>
  {
    match a
    case Failure(e) => Failure(AssignVote(e))
    case Success(rows) => Success(rows)
  }

  /** What the whole run may produce: the steps in order, the first error stopping it. */
  ghost predicate FinderOutcome(refLines: seq<Line>, queryLines: seq<Line>, t: Ratio,
                                r: Result<seq<Row>, FinderError>)
  {
    match Parse(refLines)
    case Failure(e) => r == Failure(ReferenceParse(e))
    case Success(ref) =>
      match Parse(queryLines)
      case Failure(e) => r == Failure(QueryParse(e))
      case Success(qry) =>
        match Classification(ref.chrOrder, ref.chr2busco, qry.markers, t)
        case Failure(e) => r == Failure(SplitVote(e))
        case Success(split) =>
          match Classification(qry.chrOrder, qry.chr2busco, ref.markers, t)
          case Failure(e) => r == Failure(FusionVote(e))
          case Success(fusion) =>
            exists a: Result<seq<Row>, VoteError> ::
              Assigned(a, qry.chrOrder, qry.chr2busco, ref.markers, split, fusion) && r == FromAssign(a)
  }

  /** The entry point's sequence of calls (lines 80-86). */
  method FusionSplitFinder(refLines: seq<Line>, queryLines: seq<Line>, t: Ratio)
    returns (r: Result<seq<Row>, FinderError>)
    ensures FinderOutcome(refLines, queryLines, t, r)
  {
    var ref := ParseTable(refLines);
    if ref.Failure? {
      return Failure(ReferenceParse(ref.error));
    }
    var qry := ParseTable(queryLines);
    if qry.Failure? {
      return Failure(QueryParse(qry.error));
    }
    var refTable, queryTable := ref.value, qry.value;
    var split := FindFusionsAndSplits(refTable.chrOrder, refTable.chr2busco, queryTable.markers, t);
    if split.Failure? {
      return Failure(SplitVote(split.error));
    }
    var fusion := FindFusionsAndSplits(queryTable.chrOrder, queryTable.chr2busco, refTable.markers, t);
    if fusion.Failure? {
      return Failure(FusionVote(fusion.error));
    }
    var a := AssignChromosomes(queryTable.chrOrder, queryTable.chr2busco, refTable.markers,
                               split.value, fusion.value);
    r := FromAssign(a);
  }

  /**
   * A query chromosome is reported `split` only when a reference chromosome
   * of the same name was flagged: the split list holds reference names.
   */
  lemma SplitNeedsReferenceName(refLines: seq<Line>, queryLines: seq<Line>, t: Ratio,
                                r: Result<seq<Row>, FinderError>, i: nat)
    requires FinderOutcome(refLines, queryLines, t, r)
    requires r.Success? && i < |r.value| && r.value[i].status == Split
    ensures Parse(refLines).Success?
    ensures r.value[i].queryChr in Parse(refLines).value.chr2busco
    ensures var ref := Parse(refLines).value;
      Flagged(Destinations(ref.chr2busco[r.value[i].queryChr], Parse(queryLines).value.markers), t)
  {
    var ref := Parse(refLines).value;
    var qry := Parse(queryLines).value;
    var split := Classification(ref.chrOrder, ref.chr2busco, qry.markers, t).value;
    var fusion := Classification(qry.chrOrder, qry.chr2busco, ref.markers, t).value;
    var a: Result<seq<Row>, VoteError> :| Assigned(a, qry.chrOrder, qry.chr2busco, ref.markers, split, fusion)
      && r == FromAssign(a);
    assert a.Success? && a.value == r.value;
    var c := qry.chrOrder[i];
    assert r.value[i].queryChr == c;
    assert c in split;
    ClassificationMembers(ref.chrOrder, ref.chr2busco, qry.markers, t);
  }

  /** Marker IDs m1..m5. */
  const M1: Id := "m1"
  const M2: Id := "m2"
  const M3: Id := "m3"
  const M4: Id := "m4"
  const M5: Id := "m5"

  /*
   * A classic fusion: reference chromosome A holds m1, m2, m3 and B holds m4,
   * m5; query chromosome X holds all five; min_proportion is 0.9.
   */
  const REF_ORDER: seq<Chr> := ["A", "B"]
  const REF_C2B: map<Chr, seq<Id>> := map["A" := [M1, M2, M3], "B" := [M4, M5]]
  const REF_MARKERS: map<Id, Locus> :=
    map[M1 := Locus("A", 1, 2), M2 := Locus("A", 3, 4), M3 := Locus("A", 5, 6),
        M4 := Locus("B", 1, 2), M5 := Locus("B", 3, 4)]
  const QUERY_ORDER: seq<Chr> := ["X"]
  const QUERY_C2B: map<Chr, seq<Id>> := map["X" := [M1, M2, M3, M4, M5]]
  const QUERY_MARKERS: map<Id, Locus> :=
    map[M1 := Locus("X", 1, 2), M2 := Locus("X", 3, 4), M3 := Locus("X", 5, 6),
        M4 := Locus("X", 7, 8), M5 := Locus("X", 9, 10)]
  const NINE_TENTHS: Ratio := Ratio(9, 10)

  /** A Complete row of `full_table.tsv`, as the tokenizer delivers it. */
  function CompleteLine(id: Id, c: Chr, start: nat, stop: nat): (line: Line)
    ensures ReadLine(line) == Success(CompleteRow(Anchor(id, Locus(c, start, stop))))
  {
    Fields([Token(id, None), Token(COMPLETE, None), Token(c, None),
            Token(Decimal(start), Some(start)), Token(Decimal(stop), Some(stop))])
  }

  /** The decimal digits of `n`, the text from which int() reads `n`. */
  function Decimal(n: nat): (r: string)
    ensures |r| >= 1 && forall i :: 0 <= i < |r| ==> '0' <= r[i] <= '9'
    decreases n
  {
    (if n < 10 then "" else Decimal(n / 10)) + [(('0' as int) + n % 10) as char]
  }

  /** The two tables of the fusion example as token lines. */
  const REF_LINES: seq<Line> :=
    [CompleteLine(M1, "A", 1, 2), CompleteLine(M2, "A", 3, 4), CompleteLine(M3, "A", 5, 6),
     CompleteLine(M4, "B", 1, 2), CompleteLine(M5, "B", 3, 4)]
  const QUERY_LINES: seq<Line> :=
    [CompleteLine(M1, "X", 1, 2), CompleteLine(M2, "X", 3, 4), CompleteLine(M3, "X", 5, 6),
     CompleteLine(M4, "X", 7, 8), CompleteLine(M5, "X", 9, 10)]

  /** The entries the reference lines read as. */
  const REF_ENTRIES: seq<Entry> :=
    [CompleteRow(Anchor(M1, Locus("A", 1, 2))), CompleteRow(Anchor(M2, Locus("A", 3, 4))),
     CompleteRow(Anchor(M3, Locus("A", 5, 6))), CompleteRow(Anchor(M4, Locus("B", 1, 2))),
     CompleteRow(Anchor(M5, Locus("B", 3, 4)))]

  /** The reference lines parse to the reference dicts of the example, with no warning. */
  lemma ReferenceTable()
    ensures Parse(REF_LINES) == Success(Table(REF_MARKERS, REF_ORDER, REF_C2B, []))
  {
    ReferenceEntries();
    ReferenceMarkers();
    ReferenceDict();
    ReferenceOrder();
    assert TableOf(REF_ENTRIES) == Table(REF_MARKERS, REF_ORDER, REF_C2B, []);
  }

  lemma ReferenceEntries()
    ensures Entries(REF_LINES) == Success(REF_ENTRIES)
  {
    forall i | 0 <= i < |REF_LINES| ensures ReadLine(REF_LINES[i]) == Success(REF_ENTRIES[i]) {
    }
    EntriesAllRead(REF_LINES, REF_ENTRIES);
  }

  lemma ReferenceDict()
    ensures Chr2Busco(REF_ENTRIES) == REF_C2B
  {
    ReferenceChrs();
    ReferenceIds();
    var m := Chr2Busco(REF_ENTRIES);
    assert m.Keys == REF_C2B.Keys;
  }

  lemma ReferenceOrder()
    ensures Dedup(CompleteChrs(REF_ENTRIES)) == REF_ORDER
    ensures Dedup(SeenChrs(REF_ENTRIES)) == REF_ORDER
    ensures Unanchored(REF_ORDER, REF_C2B) == []
  {
    ReferenceChrs();
    ReferenceDedup();
    assert REF_ORDER[..1][..0] == [];
  }

  lemma ReferenceDedup()
    ensures Dedup(["A", "A", "A", "B", "B"]) == REF_ORDER
  {
    assert "A" != "B" by { assert "A"[0] != "B"[0]; }
    DedupTwoRuns("A", "B");
  }

  /** Three rows on `a` then two on `b` give the key order `a`, `b`. */
  lemma DedupTwoRuns(a: Chr, b: Chr)
    requires a != b
    ensures Dedup([a, a, a, b, b]) == [a, b]
  {
    var s3, s4: seq<Chr> := [a, a, a], [a, a, a, b];
    DedupRun(s3, a);
    assert Dedup(s4) == [a, b] by { DedupSnoc(s3, b); assert s3 + [b] == s4; }
    DedupSnoc(s4, b);
    assert s4 + [b] == [a, a, a, b, b];
  }

  lemma ReferenceMarkers()
    ensures MarkerMap(REF_ENTRIES) == REF_MARKERS
  {
    var es := REF_ENTRIES;
    var p1, p2, p3, p4 := es[..1], es[..2], es[..3], es[..4];
    assert p4[..3] == p3 && p3[..2] == p2 && p2[..1] == p1 && p1[..0] == [];
    assert MarkerMap(p1) == map[M1 := Locus("A", 1, 2)];
    assert MarkerMap(p2) == map[M1 := Locus("A", 1, 2), M2 := Locus("A", 3, 4)];
    assert MarkerMap(p4) == map[M1 := Locus("A", 1, 2), M2 := Locus("A", 3, 4), M3 := Locus("A", 5, 6),
                                M4 := Locus("B", 1, 2)];
  }

  lemma ReferenceChrs()
    ensures CompleteChrs(REF_ENTRIES) == ["A", "A", "A", "B", "B"]
    ensures SeenChrs(REF_ENTRIES) == ["A", "A", "A", "B", "B"]
  {
    var es := REF_ENTRIES;
    var p1, p2, p3, p4 := es[..1], es[..2], es[..3], es[..4];
    assert p4[..3] == p3 && p3[..2] == p2 && p2[..1] == p1 && p1[..0] == [];
    assert CompleteChrs(p2) == ["A", "A"];
    assert CompleteChrs(p4) == ["A", "A", "A", "B"];
    assert SeenChrs(p2) == ["A", "A"];
    assert SeenChrs(p4) == ["A", "A", "A", "B"];
  }

  lemma ReferenceIds()
    ensures IdsOn(REF_ENTRIES, "A") == [M1, M2, M3]
    ensures IdsOn(REF_ENTRIES, "B") == [M4, M5]
  {
    var es := REF_ENTRIES;
    var p1, p2, p3, p4 := es[..1], es[..2], es[..3], es[..4];
    assert p4[..3] == p3 && p3[..2] == p2 && p2[..1] == p1 && p1[..0] == [];
    assert IdsOn(p2, "A") == [M1, M2];
    assert IdsOn(p4, "A") == [M1, M2, M3];
    assert IdsOn(p2, "B") == [];
    assert IdsOn(p4, "B") == [M4];
  }

  /** The entries the query lines read as. */
  const QUERY_ENTRIES: seq<Entry> :=
    [CompleteRow(Anchor(M1, Locus("X", 1, 2))), CompleteRow(Anchor(M2, Locus("X", 3, 4))),
     CompleteRow(Anchor(M3, Locus("X", 5, 6))), CompleteRow(Anchor(M4, Locus("X", 7, 8))),
     CompleteRow(Anchor(M5, Locus("X", 9, 10)))]

  /** The query lines parse to the query dicts of the example, with no warning. */
  lemma QueryTable()
    ensures Parse(QUERY_LINES) == Success(Table(QUERY_MARKERS, QUERY_ORDER, QUERY_C2B, []))
  {
    QueryEntries();
    QueryMarkers();
    QueryDict();
    QueryOrder();
    assert TableOf(QUERY_ENTRIES) == Table(QUERY_MARKERS, QUERY_ORDER, QUERY_C2B, []);
  }

  lemma QueryEntries()
    ensures Entries(QUERY_LINES) == Success(QUERY_ENTRIES)
  {
    forall i | 0 <= i < |QUERY_LINES| ensures ReadLine(QUERY_LINES[i]) == Success(QUERY_ENTRIES[i]) {
    }
    EntriesAllRead(QUERY_LINES, QUERY_ENTRIES);
  }

  lemma QueryMarkers()
    ensures MarkerMap(QUERY_ENTRIES) == QUERY_MARKERS
  {
    var es := QUERY_ENTRIES;
    var p1, p2, p3, p4 := es[..1], es[..2], es[..3], es[..4];
    assert p4[..3] == p3 && p3[..2] == p2 && p2[..1] == p1 && p1[..0] == [];
    assert MarkerMap(p1) == map[M1 := Locus("X", 1, 2)];
    assert MarkerMap(p2) == map[M1 := Locus("X", 1, 2), M2 := Locus("X", 3, 4)];
    assert MarkerMap(p4) == map[M1 := Locus("X", 1, 2), M2 := Locus("X", 3, 4), M3 := Locus("X", 5, 6),
                                M4 := Locus("X", 7, 8)];
  }

  lemma QueryChrs()
    ensures CompleteChrs(QUERY_ENTRIES) == ["X", "X", "X", "X", "X"]
    ensures SeenChrs(QUERY_ENTRIES) == ["X", "X", "X", "X", "X"]
    ensures IdsOn(QUERY_ENTRIES, "X") == [M1, M2, M3, M4, M5]
  {
    var es := QUERY_ENTRIES;
    var p1, p2, p3, p4 := es[..1], es[..2], es[..3], es[..4];
    assert p4[..3] == p3 && p3[..2] == p2 && p2[..1] == p1 && p1[..0] == [];
    assert CompleteChrs(p2) == ["X", "X"];
    assert CompleteChrs(p4) == ["X", "X", "X", "X"];
    assert SeenChrs(p2) == ["X", "X"];
    assert SeenChrs(p4) == ["X", "X", "X", "X"];
    assert IdsOn(p2, "X") == [M1, M2];
    assert IdsOn(p4, "X") == [M1, M2, M3, M4];
  }

  lemma QueryDict()
    ensures Chr2Busco(QUERY_ENTRIES) == QUERY_C2B
  {
    QueryChrs();
    var m := Chr2Busco(QUERY_ENTRIES);
    assert m.Keys == QUERY_C2B.Keys;
  }

  lemma QueryOrder()
    ensures Dedup(CompleteChrs(QUERY_ENTRIES)) == QUERY_ORDER
    ensures Dedup(SeenChrs(QUERY_ENTRIES)) == QUERY_ORDER
    ensures Unanchored(QUERY_ORDER, QUERY_C2B) == []
  {
    QueryChrs();
    QueryDedup();
    assert QUERY_ORDER[..0] == [];
  }

  lemma QueryDedup()
    ensures Dedup(["X", "X", "X", "X", "X"]) == QUERY_ORDER
  {
    DedupRun(["X", "X", "X", "X", "X"], "X");
  }

  /** In the fusion example no reference chromosome is split: A and B each go wholly to X. */
  lemma FusionScenarioNoSplit()
    ensures Classification(REF_ORDER, REF_C2B, QUERY_MARKERS, NINE_TENTHS) == Success([])
  {
    assert REF_C2B["A"] == [M1, M2, M3] && REF_C2B["B"] == [M4, M5];
    var dA := Destinations([M1, M2, M3], QUERY_MARKERS);
    var dB := Destinations([M4, M5], QUERY_MARKERS);
    AllOnOne([M1, M2, M3], QUERY_MARKERS, "X");
    AllOnOne([M4, M5], QUERY_MARKERS, "X");
    UnanimousExceeds(dA, "X", NINE_TENTHS);
    UnanimousExceeds(dB, "X", NINE_TENTHS);
    assert ["A"][..0] == [];
    assert Classification([], REF_C2B, QUERY_MARKERS, NINE_TENTHS) == Success([]);
    assert Classification(["A"], REF_C2B, QUERY_MARKERS, NINE_TENTHS) == Success([]);
    assert REF_ORDER[..1] == ["A"];
  }

  /** In the fusion example X is fused: its top reference chromosome, A, has only 3 of 5 markers. */
  lemma FusionScenarioFused()
    ensures Classification(QUERY_ORDER, QUERY_C2B, REF_MARKERS, NINE_TENTHS) == Success(["X"])
  {
    FusionScenarioFlagged();
    assert QUERY_ORDER[..0] == [];
    assert Classification([], QUERY_C2B, REF_MARKERS, NINE_TENTHS) == Success([]);
    ClassificationStep(QUERY_ORDER, QUERY_C2B, REF_MARKERS, NINE_TENTHS, 0);
    assert QUERY_ORDER[..1] == QUERY_ORDER;
    assert [] + ["X"] == ["X"];
  }

  /** X's markers go 3 to A and 2 to B: the top share 3/5 is not above 9/10, so X is flagged. */
  lemma FusionScenarioFlagged()
    ensures var d := Destinations(QUERY_C2B["X"], REF_MARKERS);
      d != [] && Flagged(d, NINE_TENTHS)
  {
    var dX := Destinations([M1, M2, M3, M4, M5], REF_MARKERS);
    assert QUERY_C2B["X"] == [M1, M2, M3, M4, M5];
    FusionDestinations(REF_MARKERS);
    assert multiset(dX) == multiset{"A", "A", "A", "B", "B"};
    assert Count(dX, "A") == 3;
    assert IsMode(dX, "A");
    ModeCount(dX, "A");
    assert |dX| == 5 && MaxCount(dX) == 3;
  }

  /** In the fusion example the one row that assign_chromosomes may write for X says `fusion`. */
  lemma FusionScenarioRow(rows: seq<Row>)
    ensures IsAssignment(rows, QUERY_ORDER, QUERY_C2B, REF_MARKERS, [], ["X"]) <==> rows == [Row("X", Fusion)]
  {
  }

  /**
   * The whole run on the two example tables: the only outcome is the single
   * row `X fusion`.
   */
  lemma FusionScenarioOutcome(r: Result<seq<Row>, FinderError>)
    ensures FinderOutcome(REF_LINES, QUERY_LINES, NINE_TENTHS, r) <==> r == Success([Row("X", Fusion)])
  {
    FusionScenarioReaches(r);
    var good: Result<seq<Row>, VoteError> := Success([Row("X", Fusion)]);
    FusionScenarioAssigned(good);
    if FinderOutcome(REF_LINES, QUERY_LINES, NINE_TENTHS, r) {
      var a: Result<seq<Row>, VoteError> :|
        Assigned(a, QUERY_ORDER, QUERY_C2B, REF_MARKERS, [], ["X"]) && r == FromAssign(a);
      FusionScenarioAssigned(a);
    }
  }

  /**
   * On the example's lines both tables parse, the split vote returns nothing
   * and the fusion vote returns X, so the run ends in assign_chromosomes.
   */
  lemma FusionScenarioReaches(r: Result<seq<Row>, FinderError>)
    ensures FinderOutcome(REF_LINES, QUERY_LINES, NINE_TENTHS, r) <==>
      exists a: Result<seq<Row>, VoteError> ::
        Assigned(a, QUERY_ORDER, QUERY_C2B, REF_MARKERS, [], ["X"]) && r == FromAssign(a)
  {
    ReferenceTable();
    QueryTable();
    FusionScenarioNoSplit();
    FusionScenarioFused();
  }

  /** In the fusion example assign_chromosomes can only return the row `X fusion`. */
  lemma FusionScenarioAssigned(a: Result<seq<Row>, VoteError>)
    ensures Assigned(a, QUERY_ORDER, QUERY_C2B, REF_MARKERS, [], ["X"]) <==> a == Success([Row("X", Fusion)])
  {
    assert !Unassignable(QUERY_ORDER, QUERY_C2B, REF_MARKERS, [], ["X"], 0);
    FusionScenarioRow([Row("X", Fusion)]);
    if a.Success? {
      FusionScenarioRow(a.value);
    }
  }

  /** Every listed marker is in the target dict, on chromosome `y`. */
  lemma AllOnOne(ids: seq<Id>, target: map<Id, Locus>, y: Chr)
    requires ids != []
    requires forall id :: id in ids ==> id in target && target[id].chr == y
    ensures Destinations(ids, target) != []
    ensures forall x :: x in Destinations(ids, target) ==> x == y
  {
    DestinationsDropMissing(ids, target);
    forall x | x in Destinations(ids, target) ensures x == y {
      DestinationsMembers(ids, target, x);
    }
  }

  /** The reference destinations of the fused query chromosome, in marker order. */
  lemma FusionDestinations(refMarkers: map<Id, Locus>)
    requires refMarkers == map[M1 := Locus("A", 1, 2), M2 := Locus("A", 3, 4), M3 := Locus("A", 5, 6),
                               M4 := Locus("B", 1, 2), M5 := Locus("B", 3, 4)]
    ensures Destinations([M1, M2, M3, M4, M5], refMarkers) == ["A", "A", "A", "B", "B"]
  {
    DestinationsAppend([M1, M2, M3], [M4, M5], refMarkers);
    DestinationsAppend([M1], [M2, M3], refMarkers);
    DestinationsAppend([M2], [M3], refMarkers);
    DestinationsAppend([M4], [M5], refMarkers);
    assert [M1] + [M2, M3] == [M1, M2, M3];
    assert [M2] + [M3] == [M2, M3];
    assert [M1, M2, M3] + [M4, M5] == [M1, M2, M3, M4, M5];
    assert [M4] + [M5] == [M4, M5];
    assert forall id: Id :: [id][..0] == [];
  }
}
