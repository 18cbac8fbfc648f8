/**
 * Reading a BUSCO `full_table.tsv` (parse_table).
 *
 * A line reaches the model already split at whitespace; for every field the
 * tokenizer also records the integer that Python's int() reads from it, or
 * None where int() raises. Only `Complete` rows become anchors; `Duplicated`
 * rows only make their chromosome known, so that a chromosome without any
 * Complete marker can be warned about.
 */
module BuscoTable {
  import opened Util

  type Id = string
  type Chr = string

  const COMPLETE: string := "Complete"
  const DUPLICATED: string := "Duplicated"

  /** One whitespace-separated field; `num` is int() of the field, None when int() raises. */
  datatype Token = Token(text: string, num: Option<int>)

  /** A line that starts with '#', or the fields of any other line. */
  datatype Line = Comment | Fields(cols: seq<Token>)

  /** The value stored for a marker: chromosome, start and stop. */
  datatype Locus = Locus(chr: Chr, start: int, stop: int)

  datatype Anchor = Anchor(id: Id, locus: Locus)

  /** What a well-formed line contributes. */
  datatype Entry = Ignored | CompleteRow(anchor: Anchor) | DuplicatedRow(chr: Chr)

  /** Python's IndexError (a column is missing) and ValueError (int() refuses a coordinate). */
  datatype ErrorKind = IndexError | ValueError

  /** The exception raised while reading line number `line` (counting from 0). */
  datatype ParseError = ParseError(line: nat, kind: ErrorKind)

  /**
   * What parse_table produces: the marker dict, the chromosome-to-markers dict
   * with its keys in insertion order, and the chromosomes it warns about.
   */
  datatype Table = Table(
    markers: map<Id, Locus>,
    chrOrder: seq<Chr>,
    chr2busco: map<Chr, seq<Id>>,
    warned: seq<Chr>)

  /** A line on which parse_table raises. */
  predicate Malformed(line: Line)
  {
    && line.Fields?
    && var cols := line.cols;
       || |cols| < 2
       || (cols[1].text == COMPLETE && (|cols| < 5 || cols[3].num.None? || cols[4].num.None?))
       || (cols[1].text == DUPLICATED && |cols| < 3)
  }

  /** Reads one line, in the order Python evaluates `cols[2], int(cols[3]), int(cols[4])`. */
  function ReadLine(line: Line): (r: Result<Entry, ErrorKind>)
    ensures r.Failure? <==> Malformed(line)
    ensures r.Success? && r.value.CompleteRow? ==> line.Fields? && line.cols[1].text == COMPLETE
    ensures r.Success? && r.value.DuplicatedRow? ==> line.Fields? && line.cols[1].text == DUPLICATED
    ensures (line.Fields? && |line.cols| >= 2 && line.cols[1].text != COMPLETE
             && line.cols[1].text != DUPLICATED) ==> r == Success(Ignored)
    ensures line.Comment? ==> r == Success(Ignored)
  {
    match line
    case Comment => Success(Ignored)
    case Fields(cols) =>
      if |cols| < 2 then Failure(IndexError)
      else if cols[1].text == COMPLETE then
        if |cols| < 4 then Failure(IndexError)
        else if cols[3].num.None? then Failure(ValueError)
        else if |cols| < 5 then Failure(IndexError)
        else if cols[4].num.None? then Failure(ValueError)
        else Success(CompleteRow(Anchor(cols[0].text, Locus(cols[2].text, cols[3].num.value, cols[4].num.value))))
      else if cols[1].text == DUPLICATED then
        if |cols| < 3 then Failure(IndexError) else Success(DuplicatedRow(cols[2].text))
      else Success(Ignored)
  }

  /** The entries of all lines, or the error of the first line that cannot be read. */
  function Entries(lines: seq<Line>): (r: Result<seq<Entry>, ParseError>)
    ensures r.Success? ==>
      && |r.value| == |lines|
      && forall i :: 0 <= i < |lines| ==> ReadLine(lines[i]) == Success(r.value[i])
    ensures r.Failure? ==>
      && r.error.line < |lines|
      && ReadLine(lines[r.error.line]) == Failure(r.error.kind)
      && forall i :: 0 <= i < r.error.line ==> ReadLine(lines[i]).Success?
    decreases |lines|
  {
    if lines == [] then Success([])
    else
      var n := |lines| - 1;
      match Entries(lines[..n])
      case Failure(e) => Failure(e)
      case Success(es) =>
        match ReadLine(lines[n])
        case Failure(k) => Failure(ParseError(n, k))
        case Success(e) => Success(es + [e])
  }

  /** The marker dict: every Complete row stores its locus under its ID, a later row overwriting. */
  function MarkerMap(es: seq<Entry>): (m: map<Id, Locus>)
    ensures es != [] && es[|es| - 1].CompleteRow? ==>
      es[|es| - 1].anchor.id in m && m[es[|es| - 1].anchor.id] == es[|es| - 1].anchor.locus
    decreases |es|
  {
    if es == [] then map[]
    else
      var n := |es| - 1;
      var m := MarkerMap(es[..n]);
      if es[n].CompleteRow? then m[es[n].anchor.id := es[n].anchor.locus] else m
  }

  /** The IDs of the Complete rows on chromosome `c`, in row order. */
  function IdsOn(es: seq<Entry>, c: Chr): (r: seq<Id>)
    ensures |r| <= |es|
    decreases |es|
  {
    if es == [] then []
    else
      var n := |es| - 1;
      IdsOn(es[..n], c)
        + (if es[n].CompleteRow? && es[n].anchor.locus.chr == c then [es[n].anchor.id] else [])
  }

  /** The chromosomes of the Complete rows, in row order (with repeats). */
  function CompleteChrs(es: seq<Entry>): (r: seq<Chr>)
    ensures |r| <= |es|
    decreases |es|
  {
    if es == [] then []
    else
      var n := |es| - 1;
      CompleteChrs(es[..n]) + (if es[n].CompleteRow? then [es[n].anchor.locus.chr] else [])
  }

  /** The chromosomes of the Complete and the Duplicated rows, in row order (with repeats). */
  function SeenChrs(es: seq<Entry>): (r: seq<Chr>)
    ensures |r| <= |es|
    decreases |es|
  {
    if es == [] then []
    else
      var n := |es| - 1;
      SeenChrs(es[..n]) + ChrsOf(es[n])
  }

  /** The chromosome an entry names, if any. */
  function ChrsOf(e: Entry): (r: seq<Chr>)
    ensures forall c :: c in r <==> NamesChr(e, c)
  {
    match e
    case CompleteRow(a) => [a.locus.chr]
    case DuplicatedRow(c) => [c]
    case Ignored => []
  }

  /** The chromosome-to-markers dict: each chromosome of a Complete row, with its IDs. */
  function Chr2Busco(es: seq<Entry>): (m: map<Chr, seq<Id>>)
    ensures forall c :: c in m ==> m[c] != []
  {
    assert forall c :: c in CompleteChrs(es) ==> IdsOn(es, c) != [] by {
      forall c | c in CompleteChrs(es) ensures IdsOn(es, c) != [] {
        IdsOnEmpty(es, c);
      }
    }
    map c | c in CompleteChrs(es) :: IdsOn(es, c)
  }

  /** The first occurrence of every element, in order: a list grown by "append unless present". */
  function Dedup(s: seq<Chr>): (r: seq<Chr>)
    ensures forall x :: x in r <==> x in s
    ensures Distinct(r)
    decreases |s|
  {
    if s == [] then []
    else
      var n := |s| - 1;
      var r := Dedup(s[..n]);
      if s[n] in r then r else r + [s[n]]
  }

  /** The chromosomes of `seen` that are not keys of `c2b`, in the order of `seen`. */
  function Unanchored(seen: seq<Chr>, c2b: map<Chr, seq<Id>>): (r: seq<Chr>)
    ensures |r| <= |seen|
    ensures forall c :: c in r ==> c in seen && c !in c2b
    decreases |seen|
  {
    if seen == [] then []
    else
      var n := |seen| - 1;
      Unanchored(seen[..n], c2b) + (if seen[n] in c2b then [] else [seen[n]])
  }

  /**
   * The table built from well-formed entries. The keys of the chromosome dict
   * are listed once each in insertion order, and every key has a marker.
   */
  function TableOf(es: seq<Entry>): (t: Table)
    ensures Distinct(t.chrOrder)
    ensures forall c :: c in t.chrOrder <==> c in t.chr2busco
    ensures forall c :: c in t.chr2busco ==> t.chr2busco[c] != []
  {
    var c2b := Chr2Busco(es);
    Table(MarkerMap(es), Dedup(CompleteChrs(es)), c2b, Unanchored(Dedup(SeenChrs(es)), c2b))
  }

  /** What parse_table returns for `lines`, or the exception it raises. */
  function Parse(lines: seq<Line>): (r: Result<Table, ParseError>)
    ensures r.Success? ==> forall c :: c in r.value.chrOrder <==> c in r.value.chr2busco
  {
    match Entries(lines)
    case Failure(e) => Failure(e)
    case Success(es) => Success(TableOf(es))
  }

  /** Line `line` is a Complete row for marker `id` on chromosome `c`. */
  predicate CompleteRowOn(line: Line, id: Id, c: Chr)
  {
    var r := ReadLine(line);
    r.Success? && r.value.CompleteRow? && r.value.anchor.id == id && r.value.anchor.locus.chr == c
  }

  /** Line `line` is a Complete row for marker `id`. */
  predicate CompleteRowFor(line: Line, id: Id)
  {
    var r := ReadLine(line);
    r.Success? && r.value.CompleteRow? && r.value.anchor.id == id
  }

  /** Line `line` is a Complete row on chromosome `c`. */
  predicate CompleteRowAt(line: Line, c: Chr)
  {
    var r := ReadLine(line);
    r.Success? && r.value.CompleteRow? && r.value.anchor.locus.chr == c
  }

  /**
   * parse_table, with its loop over the lines and its loop over the
   * chromosomes seen, returning the table it builds or the exception raised.
   */
  method ParseTable(lines: seq<Line>) returns (r: Result<Table, ParseError>)
    ensures r == Parse(lines)
  {
    var markers: map<Id, Locus> := map[];
    var chr2busco: map<Chr, seq<Id>> := map[];
    var chrOrder: seq<Chr> := [];
    var allChrs: seq<Chr> := [];
    var i := 0;
    while i < |lines|
      invariant 0 <= i <= |lines|
      invariant Entries(lines[..i]).Success?
      invariant var es := Entries(lines[..i]).value;
        && markers == MarkerMap(es)
        && chr2busco == Chr2Busco(es)
        && chrOrder == Dedup(CompleteChrs(es))
        && allChrs == Dedup(SeenChrs(es))
    {
      ghost var es := Entries(lines[..i]).value;
      assert lines[..i + 1][..i] == lines[..i];
      match ReadLine(lines[i])
      case Failure(k) =>
        FirstMalformedLine(lines, i);
        return Failure(ParseError(i, k));
      case Success(e) =>
        assert Entries(lines[..i + 1]) == Success(es + [e]);
        markers, chr2busco, chrOrder, allChrs := AddEntry(e, es, markers, chr2busco, chrOrder, allChrs);
      i := i + 1;
    }
    assert lines[..i] == lines;
    var warned := WarnUnanchored(allChrs, chr2busco);
    r := Success(Table(markers, chrOrder, chr2busco, warned));
  }

  /** The warning loop of lines 27-29: the seen chromosomes that have no key, in order. */
  method WarnUnanchored(allChrs: seq<Chr>, chr2busco: map<Chr, seq<Id>>) returns (warned: seq<Chr>)
    ensures warned == Unanchored(allChrs, chr2busco)
  {
    warned := [];
    var j := 0;
    while j < |allChrs|
      invariant 0 <= j <= |allChrs|
      invariant warned == Unanchored(allChrs[..j], chr2busco)
    {
      assert allChrs[..j + 1][..j] == allChrs[..j];
      if allChrs[j] !in chr2busco {
        warned := warned + [allChrs[j]];
      }
      j := j + 1;
    }
    assert allChrs[..j] == allChrs;
  }

  /**
   * The effect of one well-formed row on the dicts and lists parse_table
   * grows: a Complete row stores its locus, appends its ID under its
   * chromosome (creating the key if new) and makes the chromosome known; a
   * Duplicated row only makes its chromosome known.
   */
  method AddEntry(e: Entry, ghost es: seq<Entry>, markers: map<Id, Locus>, chr2busco: map<Chr, seq<Id>>,
                  chrOrder: seq<Chr>, allChrs: seq<Chr>)
    returns (markers': map<Id, Locus>, chr2busco': map<Chr, seq<Id>>, chrOrder': seq<Chr>, allChrs': seq<Chr>)
    requires markers == MarkerMap(es) && chr2busco == Chr2Busco(es)
    requires chrOrder == Dedup(CompleteChrs(es)) && allChrs == Dedup(SeenChrs(es))
    ensures markers' == MarkerMap(es + [e]) && chr2busco' == Chr2Busco(es + [e])
    ensures chrOrder' == Dedup(CompleteChrs(es + [e])) && allChrs' == Dedup(SeenChrs(es + [e]))
  {
    markers', chr2busco', chrOrder', allChrs' := markers, chr2busco, chrOrder, allChrs;
    match e
    case CompleteRow(a) =>
      CompleteRowStep(es, a);
      var c := a.locus.chr;
      markers' := markers[a.id := a.locus];
      if c in chr2busco {
        chr2busco' := chr2busco[c := chr2busco[c] + [a.id]];
      } else {
        chr2busco' := chr2busco[c := [a.id]];
        chrOrder' := chrOrder + [c];
      }
      if c !in allChrs {
        allChrs' := allChrs + [c];
      }
    case DuplicatedRow(c) =>
      DuplicatedRowStep(es, c);
      if c !in allChrs {
        allChrs' := allChrs + [c];
      }
    case Ignored =>
      IgnoredStep(es);
  }

  /**
   * A Complete row stores its locus, appends its ID under its chromosome
   * (creating the key, and its place in the key order, when new) and makes
   * the chromosome known.
   */
  lemma CompleteRowStep(es: seq<Entry>, a: Anchor)
    ensures var e, c, c2b := CompleteRow(a), a.locus.chr, Chr2Busco(es);
      && MarkerMap(es + [e]) == MarkerMap(es)[a.id := a.locus]
      && Chr2Busco(es + [e]) == (if c in c2b then c2b[c := c2b[c] + [a.id]] else c2b[c := [a.id]])
      && Dedup(CompleteChrs(es + [e])) == (if c in c2b then Dedup(CompleteChrs(es)) else Dedup(CompleteChrs(es)) + [c])
      && Dedup(SeenChrs(es + [e])) == (if c in Dedup(SeenChrs(es)) then Dedup(SeenChrs(es)) else Dedup(SeenChrs(es)) + [c])
  {
    var e, c := CompleteRow(a), a.locus.chr;
    EntriesSnoc(es, e);
    DedupSnoc(CompleteChrs(es), c);
    DedupSnoc(SeenChrs(es), c);
    assert [] + [a.id] == [a.id];
  }

  /** A Duplicated row only makes its chromosome known. */
  lemma DuplicatedRowStep(es: seq<Entry>, c: Chr)
    ensures var e := DuplicatedRow(c);
      && MarkerMap(es + [e]) == MarkerMap(es)
      && Chr2Busco(es + [e]) == Chr2Busco(es)
      && Dedup(CompleteChrs(es + [e])) == Dedup(CompleteChrs(es))
      && Dedup(SeenChrs(es + [e])) == (if c in Dedup(SeenChrs(es)) then Dedup(SeenChrs(es)) else Dedup(SeenChrs(es)) + [c])
  {
    EntriesSnoc(es, DuplicatedRow(c));
    DedupSnoc(SeenChrs(es), c);
  }

  /** A comment or a row of any other status changes nothing. */
  lemma IgnoredStep(es: seq<Entry>)
    ensures && MarkerMap(es + [Ignored]) == MarkerMap(es)
            && Chr2Busco(es + [Ignored]) == Chr2Busco(es)
            && Dedup(CompleteChrs(es + [Ignored])) == Dedup(CompleteChrs(es))
            && Dedup(SeenChrs(es + [Ignored])) == Dedup(SeenChrs(es))
  {
    EntriesSnoc(es, Ignored);
  }

  /**
   * Dedup keeps first-occurrence order: an element listed before another
   * first occurs in `s` before the other occurs at all.
   */
  lemma {:induction false} DedupFirstOccurrence(s: seq<Chr>, i: nat, j: nat)
    requires i < j < |Dedup(s)|
    ensures exists k :: 0 <= k < |s| && s[k] == Dedup(s)[i] && Dedup(s)[j] !in s[..k]
    decreases |s|
  {
    var n := |s| - 1;
    var r, r' := Dedup(s), Dedup(s[..n]);
    assert forall x :: x in s[..n] ==> x in s;
    if j < |r'| {
      DedupFirstOccurrence(s[..n], i, j);
      var k :| 0 <= k < n && s[..n][k] == r'[i] && r'[j] !in s[..n][..k];
      assert s[..n][..k] == s[..k];
    } else {
      assert r[i] in s[..n];
      var k :| 0 <= k < n && s[..n][k] == r[i];
      assert forall x :: x in s[..k] ==> x in s[..n] by {
        assert s[..n][..k] == s[..k];
      }
    }
  }

  /** Appending to the deduplicated list appends only an element not yet present. */
  lemma DedupSnoc(s: seq<Chr>, x: Chr)
    ensures Dedup(s + [x]) == if x in s then Dedup(s) else Dedup(s) + [x]
  {
    assert (s + [x])[..|s|] == s;
  }

  /** Rows all on one chromosome give that chromosome alone. */
  lemma {:induction false} DedupRun(s: seq<Chr>, x: Chr)
    requires s != [] && forall i :: 0 <= i < |s| ==> s[i] == x
    ensures Dedup(s) == [x]
    decreases |s|
  {
    var n := |s| - 1;
    var p := s[..n];
    assert s == p + [x];
    DedupSnoc(p, x);
    if n == 0 {
      assert p == [];
    } else {
      DedupRun(p, x);
    }
  }

  /** When every line before `i` reads and line `i` does not, parsing fails at line `i`. */
  lemma FirstMalformedLine(lines: seq<Line>, i: nat)
    requires i < |lines|
    requires Entries(lines[..i]).Success?
    requires ReadLine(lines[i]).Failure?
    ensures Parse(lines) == Failure(ParseError(i, ReadLine(lines[i]).error))
  {
    var es := Entries(lines[..i]).value;
    forall j | 0 <= j < i ensures ReadLine(lines[j]).Success? {
      assert lines[..i][j] == lines[j];
    }
    var r := Entries(lines);
    if r.Success? {
      assert false;
    }
    assert r.error.line == i;
  }

  /** When every line reads, the parse reads them all: the entries are exactly the lines' readings. */
  lemma {:induction false} EntriesAllRead(lines: seq<Line>, es: seq<Entry>)
    requires |es| == |lines|
    requires forall i :: 0 <= i < |lines| ==> ReadLine(lines[i]) == Success(es[i])
    ensures Entries(lines) == Success(es)
    decreases |lines|
  {
    if lines != [] {
      var n := |lines| - 1;
      assert forall i :: 0 <= i < n ==> lines[..n][i] == lines[i] && es[..n][i] == es[i];
      EntriesAllRead(lines[..n], es[..n]);
      assert es[..n] + [es[n]] == es;
    }
  }

  /** How the entry functions change when one more entry is read. */
  lemma EntriesSnoc(es: seq<Entry>, e: Entry)
    ensures MarkerMap(es + [e]) == if e.CompleteRow? then MarkerMap(es)[e.anchor.id := e.anchor.locus] else MarkerMap(es)
    ensures CompleteChrs(es + [e]) == if e.CompleteRow? then CompleteChrs(es) + [e.anchor.locus.chr] else CompleteChrs(es)
    ensures e.CompleteRow? ==> SeenChrs(es + [e]) == SeenChrs(es) + [e.anchor.locus.chr]
    ensures e.DuplicatedRow? ==> SeenChrs(es + [e]) == SeenChrs(es) + [e.chr]
    ensures e.Ignored? ==> SeenChrs(es + [e]) == SeenChrs(es)
    ensures Chr2Busco(es + [e]) ==
      if e.CompleteRow? then
        var c := e.anchor.locus.chr;
        Chr2Busco(es)[c := (if c in Chr2Busco(es) then Chr2Busco(es)[c] else []) + [e.anchor.id]]
      else Chr2Busco(es)
  {
    assert (es + [e])[..|es|] == es;
    assert CompleteChrs(es) + [] == CompleteChrs(es);
    assert SeenChrs(es) + [] == SeenChrs(es);
    Chr2BuscoSnoc(es, e);
  }

  /** Reading one more entry extends the chromosome dict as lines 17-20 do. */
  lemma Chr2BuscoSnoc(es: seq<Entry>, e: Entry)
    ensures Chr2Busco(es + [e]) ==
      if e.CompleteRow? then
        var c := e.anchor.locus.chr;
        Chr2Busco(es)[c := (if c in Chr2Busco(es) then Chr2Busco(es)[c] else []) + [e.anchor.id]]
      else Chr2Busco(es)
  {
    if e.CompleteRow? {
      Chr2BuscoSnocComplete(es, e.anchor);
    } else {
      Chr2BuscoSnocOther(es, e);
    }
  }

  /** A Complete row appends its ID under its chromosome, creating the key when new. */
  lemma Chr2BuscoSnocComplete(es: seq<Entry>, a: Anchor)
    ensures var m, c := Chr2Busco(es), a.locus.chr;
      Chr2Busco(es + [CompleteRow(a)]) == m[c := (if c in m then m[c] else []) + [a.id]]
  {
    var es' := es + [CompleteRow(a)];
    var c := a.locus.chr;
    var m, m' := Chr2Busco(es), Chr2Busco(es');
    assert es'[..|es|] == es;
    assert CompleteChrs(es') == CompleteChrs(es) + [c];
    if c !in m {
      IdsOnEmpty(es, c);
    }
    var m2 := m[c := (if c in m then m[c] else []) + [a.id]];
    assert m'.Keys == m2.Keys;
    forall x | x in m' ensures m'[x] == m2[x] {
      IdsOnSnoc(es, CompleteRow(a), x);
    }
  }

  /** Any other entry leaves the chromosome dict as it is. */
  lemma Chr2BuscoSnocOther(es: seq<Entry>, e: Entry)
    requires !e.CompleteRow?
    ensures Chr2Busco(es + [e]) == Chr2Busco(es)
  {
    var es' := es + [e];
    var m, m' := Chr2Busco(es), Chr2Busco(es');
    assert es'[..|es|] == es;
    assert CompleteChrs(es') == CompleteChrs(es);
    assert m'.Keys == m.Keys;
    forall x | x in m' ensures m'[x] == m[x] {
      IdsOnSnoc(es, e, x);
    }
  }

  /** One more entry adds its ID to the list of its own chromosome only. */
  lemma IdsOnSnoc(es: seq<Entry>, e: Entry, x: Chr)
    ensures IdsOn(es + [e], x) == IdsOn(es, x) + (if e.CompleteRow? && e.anchor.locus.chr == x then [e.anchor.id] else [])
  {
    assert (es + [e])[..|es|] == es;
  }

  /** A chromosome has Complete IDs exactly when it is the chromosome of a Complete row. */
  lemma {:induction false} IdsOnEmpty(es: seq<Entry>, c: Chr)
    ensures IdsOn(es, c) == [] <==> c !in CompleteChrs(es)
    decreases |es|
  {
    if es != [] {
      IdsOnEmpty(es[..|es| - 1], c);
    }
  }

  /** Every ID listed on `c` belongs to a Complete entry on `c`. */
  lemma {:induction false} IdsOnSound(es: seq<Entry>, c: Chr, id: Id)
    requires id in IdsOn(es, c)
    ensures exists j :: 0 <= j < |es| && es[j].CompleteRow? && es[j].anchor == Anchor(id, es[j].anchor.locus)
                        && es[j].anchor.locus.chr == c
    decreases |es|
  {
    var n := |es| - 1;
    if id in IdsOn(es[..n], c) {
      IdsOnSound(es[..n], c, id);
      var j :| 0 <= j < n && es[..n][j].CompleteRow? && es[..n][j].anchor == Anchor(id, es[..n][j].anchor.locus)
               && es[..n][j].anchor.locus.chr == c;
      assert es[j] == es[..n][j];
    } else {
      assert es[n].CompleteRow? && es[n].anchor.id == id;
    }
  }

  /** The ID of every Complete entry on `c` is listed on `c`. */
  lemma {:induction false} IdsOnComplete(es: seq<Entry>, c: Chr, j: nat)
    requires j < |es| && es[j].CompleteRow? && es[j].anchor.locus.chr == c
    ensures es[j].anchor.id in IdsOn(es, c)
    decreases |es|
  {
    var n := |es| - 1;
    if j < n {
      assert es[..n][j] == es[j];
      IdsOnComplete(es[..n], c, j);
    }
  }

  /** The IDs listed on a chromosome follow the order of the rows: reading more rows only appends. */
  lemma {:induction false} IdsOnAppend(es1: seq<Entry>, es2: seq<Entry>, c: Chr)
    ensures IdsOn(es1 + es2, c) == IdsOn(es1, c) + IdsOn(es2, c)
    decreases |es2|
  {
    if es2 != [] {
      var n := |es2| - 1;
      IdsOnAppend(es1, es2[..n], c);
      assert (es1 + es2)[..|es1| + n] == es1 + es2[..n];
    } else {
      assert es1 + es2 == es1;
    }
  }

  /** A chromosome is in CompleteChrs exactly when some Complete entry lies on it. */
  lemma {:induction false} CompleteChrsMembers(es: seq<Entry>, c: Chr)
    ensures c in CompleteChrs(es) <==> exists j :: 0 <= j < |es| && es[j].CompleteRow? && es[j].anchor.locus.chr == c
    decreases |es|
  {
    if es != [] {
      var n := |es| - 1;
      var p := es[..n];
      CompleteChrsMembers(p, c);
      assert CompleteChrs(es) == CompleteChrs(p) + (if es[n].CompleteRow? then [es[n].anchor.locus.chr] else []);
      assert c in CompleteChrs(es) <==> c in CompleteChrs(p) || (es[n].CompleteRow? && es[n].anchor.locus.chr == c);
      if c in CompleteChrs(p) {
        var j :| 0 <= j < n && p[j].CompleteRow? && p[j].anchor.locus.chr == c;
        assert es[j] == p[j];
      }
      if exists j :: 0 <= j < |es| && es[j].CompleteRow? && es[j].anchor.locus.chr == c {
        var j :| 0 <= j < |es| && es[j].CompleteRow? && es[j].anchor.locus.chr == c;
        if j < n {
          assert p[j] == es[j];
        }
      }
    }
  }

  /** Entry `e` names chromosome `c`: a Complete row on `c` or a Duplicated row for `c`. */
  predicate NamesChr(e: Entry, c: Chr)
  {
    (e.CompleteRow? && e.anchor.locus.chr == c) || e == DuplicatedRow(c)
  }

  /** A chromosome is in SeenChrs exactly when some Complete or Duplicated entry names it. */
  lemma {:induction false} SeenChrsMembers(es: seq<Entry>, c: Chr)
    ensures c in SeenChrs(es) <==> exists j :: 0 <= j < |es| && NamesChr(es[j], c)
    decreases |es|
  {
    if es != [] {
      var n := |es| - 1;
      var p := es[..n];
      SeenChrsMembers(p, c);
      assert SeenChrs(es) == SeenChrs(p) + ChrsOf(es[n]);
      assert c in SeenChrs(es) <==> c in SeenChrs(p) || NamesChr(es[n], c);
      if c in SeenChrs(p) {
        var j :| 0 <= j < n && NamesChr(p[j], c);
        assert es[j] == p[j];
      }
      if exists j :: 0 <= j < |es| && NamesChr(es[j], c) {
        var j :| 0 <= j < |es| && NamesChr(es[j], c);
        if j < n {
          assert p[j] == es[j];
        }
      }
    }
  }

  /** A chromosome is reported by Unanchored exactly when it is seen and is not a key. */
  lemma {:induction false} UnanchoredMembers(seen: seq<Chr>, c2b: map<Chr, seq<Id>>)
    ensures forall c :: c in Unanchored(seen, c2b) <==> c in seen && c !in c2b
    ensures Distinct(seen) ==> Distinct(Unanchored(seen, c2b))
    decreases |seen|
  {
    if seen != [] {
      var n := |seen| - 1;
      var p, x := seen[..n], seen[n];
      UnanchoredMembers(p, c2b);
      assert seen == p + [x];
      var u := Unanchored(p, c2b);
      var tail := if x in c2b then [] else [x];
      assert Unanchored(seen, c2b) == u + tail;
      forall c ensures c in u + tail <==> c in seen && c !in c2b {
        assert c in seen <==> c in p || c == x;
      }
      if Distinct(seen) {
        DistinctPrefix(seen, n);
        assert x !in u;
        if x !in c2b { DistinctSnoc(u, x); }
      }
    }
  }

  /**
   * The marker dict holds an ID exactly when some Complete row carries it, and
   * its locus is that of the LAST such row.
   */
  lemma MarkerMapLast(es: seq<Entry>, id: Id)
    ensures id in MarkerMap(es) <==> exists j :: 0 <= j < |es| && es[j].CompleteRow? && es[j].anchor.id == id
    ensures id in MarkerMap(es) ==>
      exists j :: 0 <= j < |es| && es[j] == CompleteRow(Anchor(id, MarkerMap(es)[id]))
                  && forall k :: j < k < |es| ==> !(es[k].CompleteRow? && es[k].anchor.id == id)
  {
    MarkerMapKeys(es, id);
    if id in MarkerMap(es) {
      MarkerMapLastRow(es, id);
      var j :| LastCarrier(es, id, j) && es[j].anchor.locus == MarkerMap(es)[id];
      assert es[j] == CompleteRow(Anchor(id, MarkerMap(es)[id]));
    }
  }

  /** Entry `e` is a Complete row for `id`. */
  predicate Carries(e: Entry, id: Id)
  {
    e.CompleteRow? && e.anchor.id == id
  }

  /** Entry `j` is the last Complete row for `id`. */
  predicate LastCarrier(es: seq<Entry>, id: Id, j: int)
  {
    0 <= j < |es| && Carries(es[j], id) && forall k :: j < k < |es| ==> !Carries(es[k], id)
  }

  /** The keys of the marker dict are the IDs of the Complete rows. */
  lemma {:induction false} MarkerMapKeys(es: seq<Entry>, id: Id)
    ensures id in MarkerMap(es) <==> exists j :: 0 <= j < |es| && Carries(es[j], id)
    decreases |es|
  {
    if es != [] {
      var n := |es| - 1;
      var p := es[..n];
      MarkerMapKeys(p, id);
      if !Carries(es[n], id) {
        if exists j :: 0 <= j < |es| && Carries(es[j], id) {
          var j :| 0 <= j < |es| && Carries(es[j], id);
          assert p[j] == es[j];
        }
        if id in MarkerMap(p) {
          var j :| 0 <= j < n && Carries(p[j], id);
          assert p[j] == es[j];
        }
      }
    }
  }

  /** A stored ID carries the locus of its last Complete row. */
  lemma {:induction false} MarkerMapLastRow(es: seq<Entry>, id: Id)
    requires id in MarkerMap(es)
    ensures exists j :: LastCarrier(es, id, j) && es[j].anchor.locus == MarkerMap(es)[id]
    decreases |es|
  {
    var n := |es| - 1;
    var p := es[..n];
    if Carries(es[n], id) {
      assert LastCarrier(es, id, n);
    } else {
      MarkerMapLastRow(p, id);
      var j :| LastCarrier(p, id, j) && p[j].anchor.locus == MarkerMap(p)[id];
      assert p[j] == es[j];
      forall k | j < k < |es| ensures !Carries(es[k], id) {
        if k < n { assert p[k] == es[k]; }
      }
      assert LastCarrier(es, id, j);
    }
  }

  /**
   * An ID is listed under chromosome `c` exactly when some line is a
   * Complete row for it on `c`.
   */
  lemma ListedIdsAreCompleteRows(lines: seq<Line>, c: Chr, id: Id)
    requires Parse(lines).Success?
    ensures var c2b := Parse(lines).value.chr2busco;
      (c in c2b && id in c2b[c]) <==> exists j :: 0 <= j < |lines| && CompleteRowOn(lines[j], id, c)
  {
    var es := Entries(lines).value;
    var c2b := Parse(lines).value.chr2busco;
    assert forall j :: 0 <= j < |lines| ==> ReadLine(lines[j]) == Success(es[j]);
    if c in c2b && id in c2b[c] {
      IdsOnSound(es, c, id);
      var j :| 0 <= j < |es| && es[j].CompleteRow? && es[j].anchor == Anchor(id, es[j].anchor.locus)
               && es[j].anchor.locus.chr == c;
      assert CompleteRowOn(lines[j], id, c);
    }
    if exists j :: 0 <= j < |lines| && CompleteRowOn(lines[j], id, c) {
      var j :| 0 <= j < |lines| && CompleteRowOn(lines[j], id, c);
      IdsOnComplete(es, c, j);
      CompleteChrsMembers(es, c);
    }
  }

  /**
   * The marker dict holds exactly the IDs of Complete rows, each with the
   * locus of the last Complete row carrying it.
   */
  lemma MarkersAreLastCompleteRows(lines: seq<Line>, id: Id)
    requires Parse(lines).Success?
    ensures var t := Parse(lines).value;
      && (id in t.markers <==> exists j :: 0 <= j < |lines| && CompleteRowFor(lines[j], id))
      && (id in t.markers ==>
            exists j :: 0 <= j < |lines| && ReadLine(lines[j]) == Success(CompleteRow(Anchor(id, t.markers[id])))
                        && forall k :: j < k < |lines| ==> !CompleteRowFor(lines[k], id))
  {
    var es := Entries(lines).value;
    MarkerMapLast(es, id);
    assert forall j :: 0 <= j < |lines| ==> ReadLine(lines[j]) == Success(es[j]);
  }

  /**
   * The chromosomes warned about are exactly those named by a Duplicated row
   * and by no Complete row, each warned about once.
   */
  lemma WarnedAreDuplicatedOnly(lines: seq<Line>, c: Chr)
    requires Parse(lines).Success?
    ensures var t := Parse(lines).value;
      && Distinct(t.warned)
      && (c in t.warned <==>
            && (exists j :: 0 <= j < |lines| && ReadLine(lines[j]) == Success(DuplicatedRow(c)))
            && !(exists j :: 0 <= j < |lines| && CompleteRowAt(lines[j], c)))
  {
    var es := Entries(lines).value;
    assert Parse(lines).value.warned == Unanchored(Dedup(SeenChrs(es)), Chr2Busco(es));
    WarnedEntries(es, c);
    assert forall j :: 0 <= j < |lines| ==> ReadLine(lines[j]) == Success(es[j]);
    if exists j :: 0 <= j < |lines| && ReadLine(lines[j]) == Success(DuplicatedRow(c)) {
      var j :| 0 <= j < |lines| && ReadLine(lines[j]) == Success(DuplicatedRow(c));
      assert es[j] == DuplicatedRow(c);
    }
    if exists j :: 0 <= j < |lines| && CompleteRowAt(lines[j], c) {
      var j :| 0 <= j < |lines| && CompleteRowAt(lines[j], c);
      assert es[j].CompleteRow? && es[j].anchor.locus.chr == c;
    }
  }

  /** `WarnedAreDuplicatedOnly` over the entries. */
  lemma WarnedEntries(es: seq<Entry>, c: Chr)
    ensures var w := Unanchored(Dedup(SeenChrs(es)), Chr2Busco(es));
      && Distinct(w)
      && (c in w <==>
            && (exists j :: 0 <= j < |es| && es[j] == DuplicatedRow(c))
            && !(exists j :: 0 <= j < |es| && es[j].CompleteRow? && es[j].anchor.locus.chr == c))
  {
    var c2b := Chr2Busco(es);
    UnanchoredMembers(Dedup(SeenChrs(es)), c2b);
    SeenChrsMembers(es, c);
    CompleteChrsMembers(es, c);
    assert c in c2b <==> c in CompleteChrs(es);
    if exists j :: 0 <= j < |es| && NamesChr(es[j], c) {
      var j :| 0 <= j < |es| && NamesChr(es[j], c);
      if !es[j].CompleteRow? {
        assert es[j] == DuplicatedRow(c);
      }
    }
  }

  /**
   * A comment, a Duplicated row or a row of any other status adds no marker
   * data: the marker dict and the chromosome dict stay as they were.
   */
  lemma OnlyCompleteRowsAddMarkers(lines: seq<Line>, line: Line)
    requires Parse(lines).Success?
    requires ReadLine(line).Success? && !ReadLine(line).value.CompleteRow?
    ensures Parse(lines + [line]).Success?
    ensures Parse(lines + [line]).value.markers == Parse(lines).value.markers
    ensures Parse(lines + [line]).value.chr2busco == Parse(lines).value.chr2busco
    ensures Parse(lines + [line]).value.chrOrder == Parse(lines).value.chrOrder
  {
    var lines' := lines + [line];
    assert lines'[..|lines|] == lines;
    var es, e := Entries(lines).value, ReadLine(line).value;
    assert Entries(lines') == Success(es + [e]);
    EntriesSnoc(es, e);
  }

  /** Two Complete rows for marker m1: first on c1 (1-2), then on c2 (3-4). */
  const REPEATED_ID_LINES: seq<Line> := [
    Fields([Token("m1", None), Token(COMPLETE, None), Token("c1", None), Token("1", Some(1)), Token("2", Some(2))]),
    Fields([Token("m1", None), Token(COMPLETE, None), Token("c2", None), Token("3", Some(3)), Token("4", Some(4))])
  ]

  /**
   * When one ID has Complete rows on two chromosomes, both chromosomes list
   * it, but the marker dict keeps only the second locus: the two dicts disagree.
   */
  lemma RepeatedIdDisagreement()
    ensures var t := Parse(REPEATED_ID_LINES);
      && t.Success?
      && "c1" in t.value.chr2busco && t.value.chr2busco["c1"] == ["m1"]
      && "c2" in t.value.chr2busco && t.value.chr2busco["c2"] == ["m1"]
      && "m1" in t.value.markers && t.value.markers["m1"] == Locus("c2", 3, 4)
  {
    var a1, a2 := Anchor("m1", Locus("c1", 1, 2)), Anchor("m1", Locus("c2", 3, 4));
    RepeatedIdEntries();
    assert "c1" != "c2" by { assert "c1"[1] != "c2"[1]; }
    SameIdOnTwoChrs(a1, a2);
  }

  /**
   * Complete rows for one ID on two different chromosomes: each chromosome
   * lists the ID, and the marker dict keeps the second row's locus.
   */
  lemma SameIdOnTwoChrs(a1: Anchor, a2: Anchor)
    requires a1.id == a2.id && a1.locus.chr != a2.locus.chr
    ensures var t := TableOf([CompleteRow(a1), CompleteRow(a2)]);
      && t.chr2busco == map[a1.locus.chr := [a1.id], a2.locus.chr := [a2.id]]
      && t.markers == map[a2.id := a2.locus]
  {
    var e1, e2 := CompleteRow(a1), CompleteRow(a2);
    var es := [e1, e2];
    var c1, c2, id := a1.locus.chr, a2.locus.chr, a1.id;
    assert Chr2Busco([e1]) == map[c1 := [id]] by {
      assert [] + [e1] == [e1] && [] + [id] == [id];
      assert CompleteChrs([]) == [];
      assert Chr2Busco([]) == map[];
      Chr2BuscoSnocComplete([], a1);
    }
    assert Chr2Busco(es) == map[c1 := [id], c2 := [id]] by {
      assert [e1] + [e2] == es && [] + [id] == [id];
      Chr2BuscoSnocComplete([e1], a2);
    }
    assert MarkerMap(es) == map[id := a2.locus] by {
      assert es[..1] == [e1] && [e1][..0] == [];
      assert MarkerMap([e1]) == map[id := a1.locus];
    }
  }

  /** The two rows of `REPEATED_ID_LINES` read as two Complete entries. */
  lemma RepeatedIdEntries()
    ensures Entries(REPEATED_ID_LINES)
      == Success([CompleteRow(Anchor("m1", Locus("c1", 1, 2))), CompleteRow(Anchor("m1", Locus("c2", 3, 4)))])
  {
    var lines := REPEATED_ID_LINES;
    var e1 := CompleteRow(Anchor("m1", Locus("c1", 1, 2)));
    var e2 := CompleteRow(Anchor("m1", Locus("c2", 3, 4)));
    assert ReadLine(lines[0]) == Success(e1);
    assert ReadLine(lines[1]) == Success(e2);
    assert lines[..1] == [lines[0]];
    assert lines[..1][..0] == [];
    assert [] + [e1] == [e1];
    assert [e1] + [e2] == [e1, e2];
    assert Entries(lines[..1]) == Success([e1]);
  }
}
