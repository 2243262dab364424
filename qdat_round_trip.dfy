/** What `WriteData` writes, `ReadVars` and `ReadQuantExamples` read back: the variable
    table (names and bounds) and the data points, for names the line format can carry. */
module QdatRoundTrip {
  import opened PyCore
  import opened Text
  import opened LineFiles
  import opened Qdat

  /** A variable name that survives its table line: no `[` (the reader splits there),
      no `#` (a `# ----` inside it would end the table), no line break, no surrounding
      whitespace (the reader strips it) and not starting with `----`. */
  predicate TableSafe(name: string) {
    '[' !in name && '#' !in name && '\n' !in name && Trimmed(name) && !StartsWith(name, "----")
  }

  /** A data point that survives its data line: a name with no space (the reader splits
      there), no line break and no leading `#` (a comment), and at least one value (a
      line with a single field is skipped). */
  predicate PointSafe(p: Point) {
    ' ' !in p.name && '\n' !in p.name && (p.name == [] || p.name[0] != '#') && |p.vals| >= 1
  }

  /** The raw bound texts the first loop of `ReadVars` collects from a table. */
  function Inners(bounds: seq<seq<int>>): (r: seq<string>)
    ensures |r| == |bounds|
  {
    seq(|bounds|, j requires 0 <= j < |bounds| => BoundsInner(bounds[j]))
  }

  function Names(exs: seq<Point>): (r: seq<string>)
    ensures |r| == |exs|
    ensures forall j :: 0 <= j < |exs| ==> r[j] == exs[j].name
  {
    seq(|exs|, j requires 0 <= j < |exs| => exs[j].name)
  }

  function Values(exs: seq<Point>): (r: seq<seq<int>>)
    ensures |r| == |exs|
    ensures forall j :: 0 <= j < |exs| ==> r[j] == exs[j].vals
  {
    seq(|exs|, j requires 0 <= j < |exs| => exs[j].vals)
  }

  /** `str` of an integer has no character other than digits and `-`. */
  lemma IntStringAvoids(v: int, c: char)
    requires !IsDigit(c) && c != '-'
    ensures c !in IntToString(v)
  {
    var t := IntToString(v);
    forall k | 0 <= k < |t| ensures t[k] != c {
      assert IsDigit(t[k]) || t[k] == '-';
    }
  }

  /** Nor does the text of a list of bounds, besides `,` and space. */
  lemma InnerAvoids(bs: seq<int>, c: char)
    requires !IsDigit(c) && c != '-' && c != ',' && c != ' '
    ensures c !in BoundsInner(bs)
  {
    var ps := IntStrings(bs);
    forall k | 0 <= k < |ps| ensures c !in ps[k] {
      IntStringAvoids(bs[k], c);
    }
    JoinAvoids(ps, ", ", c);
  }

  /** A table line is not the rule that ends the table. */
  lemma VarLineNotRule(name: string, bs: seq<int>)
    requires TableSafe(name)
    ensures !Contains(VarLine(name, bs), "# ----")
  {
    InnerAvoids(bs, '#');
    TableLineNotRule(name, BoundsInner(bs));
  }

  /** The same, for any bounds text without `#`. */
  lemma TableLineNotRule(name: string, inner: string)
    requires TableSafe(name) && '#' !in inner
    ensures !Contains("# " + name + " " + "[" + inner + "]" + "\n", "# ----")
  {
    var line := "# " + name + " " + "[" + inner + "]" + "\n";
    assert line[1..] == " " + name + " " + "[" + inner + "]" + "\n";
    if |name| >= 4 {
      var j :| 0 <= j < 4 && name[j] != '-';
      assert line[2 + j] == name[j];
    } else {
      assert line[2 + |name|] == ' ';
    }
    OnlyAtHead(line, "# ----");
  }

  /** `ReadVars` takes the name and the raw bounds text back from a table line. */
  lemma VarLineEntry(name: string, bs: seq<int>)
    requires TableSafe(name)
    ensures TableEntry(VarLine(name, bs)) == Some((name, BoundsInner(bs)))
  {
    InnerAvoids(bs, '[');
    TableLineEntry(name, BoundsInner(bs));
  }

  /** The same, for any bounds text without `[`. */
  lemma TableLineEntry(name: string, inner: string)
    requires TableSafe(name) && '[' !in inner
    ensures TableEntry("# " + name + " " + "[" + inner + "]" + "\n") == Some((name, inner))
  {
    var ps := [name + " ", inner + "]\n"];
    assert Drop("# " + name + " " + "[" + inner + "]" + "\n", 2) == JoinWith(ps, "[");
    SplitJoin(ps, '[');
    StripPadded("", name, " ");
    assert "" + name + " " == name + " ";
    assert DropLast(inner + "]\n", 2) == inner;
  }

  /** `float` on the items of `str(bs)` gives back `bs`. */
  lemma BoundsRoundTrip(bs: seq<int>)
    ensures ParseBounds(BoundsInner(bs)) == Some(bs)
  {
    if bs != [] {
      var ps := IntStrings(bs);
      JoinCommaSpace(ps);
      JoinFirst(ps, ", ");
      forall k | 0 <= k < |bs|
        ensures ',' !in BoundItems(bs)[k] && ParseWholeFloat(BoundItems(bs)[k]) == Some(bs[k])
      {
        BoundItemParses(bs, k);
      }
      SplitJoin(BoundItems(bs), ',');
      ParseAllExact(BoundItems(bs), bs, ToFloat);
    }
  }

  /** The items between the commas of `str(bs)`, each with the space after its comma. */
  function BoundItems(bs: seq<int>): (r: seq<string>)
    requires bs != []
    ensures |r| == |bs|
  {
    [IntStrings(bs)[0]] + SpaceLed(IntStrings(bs)[1..])
  }

  /** Each item holds no comma and parses to its bound. */
  lemma BoundItemParses(bs: seq<int>, k: nat)
    requires k < |bs|
    ensures ',' !in BoundItems(bs)[k] && ParseWholeFloat(BoundItems(bs)[k]) == Some(bs[k])
  {
    if k == 0 {
      assert BoundItems(bs)[0] == IntToString(bs[0]);
      LeadItem(bs[0]);
    } else {
      assert BoundItems(bs)[k] == " " + IntToString(bs[k]);
      SpacedItem(bs[k]);
    }
  }

  /** The first item of `str(bs)`. */
  lemma LeadItem(v: int)
    ensures ',' !in IntToString(v) && ParseWholeFloat(IntToString(v)) == Some(v)
  {
    IntStringAvoids(v, ',');
    ParseWholeFloatToString("", v, "");
    assert "" + IntToString(v) + "" == IntToString(v);
  }

  /** An item of `str(bs)` after a comma. */
  lemma SpacedItem(v: int)
    ensures ',' !in " " + IntToString(v) && ParseWholeFloat(" " + IntToString(v)) == Some(v)
  {
    IntStringAvoids(v, ',');
    ParseWholeFloatToString(" ", v, "");
    assert " " + IntToString(v) + "" == " " + IntToString(v);
  }

  /** Converting items that each parse converts them all, in order. */
  lemma ParseAllExact(items: seq<string>, vs: seq<int>, c: Conversion)
    requires |items| == |vs|
    requires forall k :: 0 <= k < |items| ==> ConvertItem(c, items[k]) == Some(vs[k])
    ensures ParseAll(items, c) == Some(vs)
  {
    ParseAllMeaning(items, c);
    var r := ParseAll(items, c);
    assert r.Some? && |r.value| == |vs|;
    assert r.value == vs;
  }

  /** Positions in a concatenation `a + b + [x] + c`. */
  lemma ConcatAt<T>(a: seq<T>, b: seq<T>, x: T, c: seq<T>)
    ensures |a + b + [x] + c| == |a| + |b| + 1 + |c|
    ensures forall j :: 0 <= j < |a| ==> (a + b + [x] + c)[j] == a[j]
    ensures forall j :: 0 <= j < |b| ==> (a + b + [x] + c)[|a| + j] == b[j]
    ensures (a + b + [x] + c)[|a| + |b|] == x
    ensures forall j :: 0 <= j < |c| ==> (a + b + [x] + c)[|a| + |b| + 1 + j] == c[j]
  {
  }

  /** Every line `WriteData` writes, by position. */
  lemma QdatLinesAt(names: seq<string>, bounds: seq<seq<int>>, exs: seq<Point>)
    requires |names| <= |bounds|
    ensures |QdatLines(names, bounds, exs)| == 4 + |names| + |exs|
    ensures QdatLines(names, bounds, exs)[0] == Banner
    ensures QdatLines(names, bounds, exs)[1] == Rule
    ensures QdatLines(names, bounds, exs)[2] == TableTitle
    ensures QdatLines(names, bounds, exs)[3 + |names|] == Rule
    ensures forall j :: 0 <= j < |names| ==> QdatLines(names, bounds, exs)[3 + j] == VarLine(names[j], bounds[j])
    ensures forall j :: 0 <= j < |exs| ==> QdatLines(names, bounds, exs)[4 + |names| + j] == ExampleLine(exs[j])
  {
    var vl := VarLines(names, bounds);
    var el := ExampleLines(exs);
    VarLinesAt(names, bounds);
    ExampleLinesAt(exs);
    ConcatAt(HeaderLines(), vl, Rule, el);
  }

  /** Of the three header lines, only the third names the variable table. */
  lemma HeaderMatches()
    ensures !Contains(Banner, "Variable Table") && !Contains(Rule, "Variable Table")
    ensures Contains(TableTitle, "Variable Table")
  {
    NoOccurrence(Banner, "Variable Table");
    NoOccurrence(Rule, "Variable Table");
    assert StartsWith(TableTitle[2..], "Variable Table");
  }

  /** The rule line ends the table. */
  lemma RuleEndsTable()
    ensures Contains(Rule, "# ----")
  {
    assert StartsWith(Rule[0..], "# ----");
  }

  /** `MoveToMatchingLine(inFile, 'Variable Table')` stops after the third header line. */
  lemma FindTable(lines: seq<string>)
    requires |lines| >= 3 && lines[0] == Banner && lines[1] == Rule && lines[2] == TableTitle
    ensures AfterMatch(lines, 0, "Variable Table") == 3
  {
    HeaderMatches();
    AfterMatchSkip(lines, 0, "Variable Table");
    AfterMatchSkip(lines, 1, "Variable Table");
    AfterMatchHit(lines, 2, "Variable Table");
  }

  lemma QdatLinesLength(names: seq<string>, bounds: seq<seq<int>>, exs: seq<Point>)
    requires |names| <= |bounds|
    ensures |QdatLines(names, bounds, exs)| == 4 + |names| + |exs|
  { }

  /** One step of the first loop of `ReadVars`, on a line holding a table entry. */
  lemma ScanTableStep(lines: seq<string>, pos: nat, name: string, raw: string)
    requires pos < |lines| && !Contains(lines[pos], "# ----")
    requires TableEntry(lines[pos]) == Some((name, raw))
    ensures ScanTable(lines, pos) == Prepend3([name], [raw], ScanTable(lines, pos + 1))
  {
  }

  /** From position `p` on, `lines` holds one table line per entry of `names` and `raws`:
      each is one step of the first loop of `ReadVars`. */
  predicate TableSteps(lines: seq<string>, p: nat, names: seq<string>, raws: seq<string>) {
    |names| == |raws| && p + |names| <= |lines|
    && forall i {:trigger names[i]} :: 0 <= i < |names| ==>
         ScanTable(lines, p + i) == Prepend3([names[i]], [raws[i]], ScanTable(lines, p + i + 1))
  }

  /** The first loop of `ReadVars` over lines that each hold a table entry collects every
      entry, and stops where the lines after them stop it. */
  lemma {:induction false} ScanVarLines(lines: seq<string>, p: nat, names: seq<string>,
                                        raws: seq<string>, k: nat, fin: nat)
    requires TableSteps(lines, p, names, raws) && k <= |names|
    requires ScanTable(lines, p + |names|) == Ok(([], [], fin))
    ensures ScanTable(lines, p + k) == Ok((names[k..], raws[k..], fin))
    decreases |names| - k
  {
    if k < |names| {
      ScanVarLines(lines, p, names, raws, k + 1, fin);
      SliceCons(names, k);
      SliceCons(raws, k);
    }
  }

  lemma SliceCons<T>(s: seq<T>, k: nat)
    requires k < |s|
    ensures s[k..] == [s[k]] + s[k + 1..]
  { }

  lemma SliceAll<T>(s: seq<T>)
    ensures s[0..] == s
  { }

  /** What `ReadVars` takes from one table line. */
  lemma VarLineFacts(name: string, bs: seq<int>, line: string)
    requires TableSafe(name) && line == VarLine(name, bs)
    ensures !Contains(line, "# ----")
    ensures TableEntry(line) == Some((name, BoundsInner(bs)))
  {
    VarLineNotRule(name, bs);
    VarLineEntry(name, bs);
  }

  /** The second loop of `ReadVars` converts every bounds text back. */
  lemma AllBoundsRoundTrip(bounds: seq<seq<int>>)
    ensures ParseAllBounds(Inners(bounds)) == Ok(bounds)
  {
    var raws := Inners(bounds);
    forall j | 0 <= j < |raws| ensures ParseBounds(raws[j]) == Some(bounds[j]) {
      BoundsRoundTrip(bounds[j]);
    }
    ParseAllBoundsMeaning(raws);
    var r := ParseAllBounds(raws);
    assert r.Ok? && |r.value| == |bounds|;
    assert r.value == bounds;
  }

  /** One step of the first loop of `ReadVars` on a written file: the table line of
      variable `k`. */
  lemma TableLineScanned(names: seq<string>, bounds: seq<seq<int>>, exs: seq<Point>, k: nat)
    requires k < |names| <= |bounds| && TableSafe(names[k])
    ensures ScanTable(QdatLines(names, bounds, exs), 3 + k)
         == Prepend3([names[k]], [BoundsInner(bounds[k])], ScanTable(QdatLines(names, bounds, exs), 4 + k))
  {
    var lines := QdatLines(names, bounds, exs);
    QdatLinesAt(names, bounds, exs);
    VarLineFacts(names[k], bounds[k], lines[3 + k]);
    ScanTableStep(lines, 3 + k, names[k], BoundsInner(bounds[k]));
  }

  /** The rule after the table lines of a written file ends the first loop. */
  lemma RuleScanned(names: seq<string>, bounds: seq<seq<int>>, exs: seq<Point>)
    requires |names| <= |bounds|
    ensures ScanTable(QdatLines(names, bounds, exs), 3 + |names|) == Ok(([], [], (4 + |names|) as nat))
  {
    QdatLinesAt(names, bounds, exs);
    RuleEndsTable();
  }

  /** Every table line of a written file is one step of the first loop of `ReadVars`. */
  lemma TableLinesScanned(names: seq<string>, bounds: seq<seq<int>>, exs: seq<Point>)
    requires |names| <= |bounds|
    requires forall j :: 0 <= j < |names| ==> TableSafe(names[j])
    ensures TableSteps(QdatLines(names, bounds, exs), 3, names, Inners(bounds[..|names|]))
  {
    var lines := QdatLines(names, bounds, exs);
    var raws := Inners(bounds[..|names|]);
    QdatLinesLength(names, bounds, exs);
    forall i | 0 <= i < |names|
      ensures ScanTable(lines, 3 + i) == Prepend3([names[i]], [raws[i]], ScanTable(lines, 3 + i + 1))
    {
      TableLineScanned(names, bounds, exs, i);
    }
  }

  /** The first loop of `ReadVars` on a written file, from the line after the title. */
  lemma TableScanned(names: seq<string>, bounds: seq<seq<int>>, exs: seq<Point>)
    requires |names| <= |bounds|
    requires forall j :: 0 <= j < |names| ==> TableSafe(names[j])
    ensures ScanTable(QdatLines(names, bounds, exs), 3) == Ok((names, Inners(bounds[..|names|]), 4 + |names|))
  {
    TableLinesScanned(names, bounds, exs);
    RuleScanned(names, bounds, exs);
    ScanVarLines(QdatLines(names, bounds, exs), 3, names, Inners(bounds[..|names|]), 0, 4 + |names|);
    SliceAll(names);
    SliceAll(Inners(bounds[..|names|]));
  }

  /** Reading the table back: the names, the bounds of the named variables, and the
      position of the first data line. */
  lemma ReadVarsRoundTrip(names: seq<string>, bounds: seq<seq<int>>, exs: seq<Point>)
    requires |names| <= |bounds|
    requires forall j :: 0 <= j < |names| ==> TableSafe(names[j])
    ensures ReadVarsSpec(QdatLines(names, bounds, exs), 0) == Ok((names, bounds[..|names|], 4 + |names|))
  {
    QdatLinesAt(names, bounds, exs);
    FindTable(QdatLines(names, bounds, exs));
    TableScanned(names, bounds, exs);
    AllBoundsRoundTrip(bounds[..|names|]);
  }

  /** `ps` with a newline after its last piece. */
  function WithNewline(ps: seq<string>): (r: seq<string>)
    requires ps != []
    ensures |r| == |ps|
    ensures forall k :: 0 <= k < |ps| - 1 ==> r[k] == ps[k]
    ensures r[|ps| - 1] == ps[|ps| - 1] + "\n"
  {
    ps[..|ps| - 1] + [ps[|ps| - 1] + "\n"]
  }

  /** The fields of a data line are the name and the values' texts, the last one
      still carrying the newline. */
  lemma ExampleLineFields(p: Point)
    requires PointSafe(p)
    ensures SplitSpaces(ExampleLine(p)) == [p.name] + WithNewline(IntStrings(p.vals))
  {
    var vs := IntStrings(p.vals);
    var ts := [p.name] + vs;
    var us := [p.name] + WithNewline(vs);
    JoinAppendLast(ts, " ", "\n");
    assert ts[..|ts| - 1] + [ts[|ts| - 1] + "\n"] == us;
    forall k | 1 <= k < |us| ensures ' ' !in us[k] && us[k] != "" {
      IntStringAvoids(p.vals[k - 1], ' ');
    }
    SplitSpacesJoin(us);
  }

  /** A data line is not empty and does not start with `#`. */
  lemma ExampleLineHead(p: Point)
    requires PointSafe(p)
    ensures ExampleLine(p) != "" && ExampleLine(p)[0] != '#'
  {
    var ts := [p.name] + IntStrings(p.vals);
    var line := ExampleLine(p);
    assert line == ts[0] + " " + JoinWith(ts[1..], " ") + "\n";
    if p.name == [] {
      assert line[0] == ' ';
    } else {
      assert line[0] == p.name[0];
    }
  }

  /** `int` on the value fields gives back the values. */
  lemma ParseValues(vals: seq<int>)
    requires vals != []
    ensures ParseAll(WithNewline(IntStrings(vals)), ToInt) == Some(vals)
  {
    var vs := IntStrings(vals);
    var items := WithNewline(vs);
    forall k | 0 <= k < |items| ensures ParseInt(items[k]) == Some(vals[k]) {
      if k < |items| - 1 {
        ParseIntToString("", vals[k], "");
        assert "" + vs[k] + "" == items[k];
      } else {
        ParseIntToString("", vals[k], "\n");
        assert "" + vs[k] + "\n" == items[k];
      }
    }
    ParseAllMeaning(items, ToInt);
    var r := ParseAll(items, ToInt);
    assert r.Some? && |r.value| == |vals|;
    assert r.value == vals;
  }

  /** `ReadQuantExamples` takes the point back from its data line. */
  lemma ExampleLineEntry(p: Point, line: string)
    requires PointSafe(p) && line == ExampleLine(p)
    ensures line != ""
    ensures LineEntry(line) == Ok(Some((p.name, p.vals)))
  {
    ExampleLineHead(p);
    ExampleLineFields(p);
    ParseValues(p.vals);
    var fields := SplitSpaces(line);
    assert fields[1..] == WithNewline(IntStrings(p.vals));
  }

  lemma ParseExamplesStep(lines: seq<string>, pos: nat, name: string, vals: seq<int>)
    requires pos < |lines| && lines[pos] != ""
    requires LineEntry(lines[pos]) == Ok(Some((name, vals)))
    ensures ParseExamples(lines, pos) == Prepend2([name], [vals], ParseExamples(lines, pos + 1))
  {
  }

  /** From position `p` to the end, `lines` holds one data line per point of `exs`: each
      is one step of the loop of `ReadQuantExamples`. */
  predicate ExampleSteps(lines: seq<string>, p: nat, exs: seq<Point>) {
    p + |exs| == |lines|
    && forall i {:trigger exs[i]} :: 0 <= i < |exs| ==>
         ParseExamples(lines, p + i) == Prepend2([exs[i].name], [exs[i].vals], ParseExamples(lines, p + i + 1))
  }

  /** The loop of `ReadQuantExamples` over lines that each hold one point collects
      every point. */
  lemma {:induction false} ScanExampleLines(lines: seq<string>, p: nat, exs: seq<Point>, k: nat)
    requires ExampleSteps(lines, p, exs) && k <= |exs|
    ensures ParseExamples(lines, p + k) == Ok((Names(exs)[k..], Values(exs)[k..]))
    decreases |exs| - k
  {
    if k < |exs| {
      ScanExampleLines(lines, p, exs, k + 1);
      SliceCons(Names(exs), k);
      SliceCons(Values(exs), k);
    } else {
      SliceEnd(Names(exs));
      SliceEnd(Values(exs));
    }
  }

  lemma SliceEnd<T>(s: seq<T>)
    ensures s[|s|..] == []
  { }

  /** One step of the loop of `ReadQuantExamples` on a written file: the line of point
      `k`. */
  lemma ExampleLineScanned(names: seq<string>, bounds: seq<seq<int>>, exs: seq<Point>, k: nat)
    requires |names| <= |bounds| && k < |exs| && PointSafe(exs[k])
    ensures ParseExamples(QdatLines(names, bounds, exs), 4 + |names| + k)
         == Prepend2([exs[k].name], [exs[k].vals], ParseExamples(QdatLines(names, bounds, exs), 4 + |names| + k + 1))
  {
    var lines := QdatLines(names, bounds, exs);
    QdatLinesAt(names, bounds, exs);
    ExampleLineEntry(exs[k], lines[4 + |names| + k]);
    ParseExamplesStep(lines, 4 + |names| + k, exs[k].name, exs[k].vals);
  }

  /** Every data line of a written file is one step of the loop of `ReadQuantExamples`. */
  lemma ExampleLinesScanned(names: seq<string>, bounds: seq<seq<int>>, exs: seq<Point>)
    requires |names| <= |bounds|
    requires forall j :: 0 <= j < |exs| ==> PointSafe(exs[j])
    ensures ExampleSteps(QdatLines(names, bounds, exs), 4 + |names|, exs)
  {
    var lines := QdatLines(names, bounds, exs);
    QdatLinesLength(names, bounds, exs);
    forall i | 0 <= i < |exs|
      ensures ParseExamples(lines, 4 + |names| + i)
           == Prepend2([exs[i].name], [exs[i].vals], ParseExamples(lines, 4 + |names| + i + 1))
    {
      ExampleLineScanned(names, bounds, exs, i);
    }
  }

  /** Reading the data lines back, from where `ReadVars` leaves the file. */
  lemma ReadExamplesRoundTrip(names: seq<string>, bounds: seq<seq<int>>, exs: seq<Point>)
    requires |names| <= |bounds|
    requires forall j :: 0 <= j < |exs| ==> PointSafe(exs[j])
    ensures ParseExamples(QdatLines(names, bounds, exs), 4 + |names|) == Ok((Names(exs), Values(exs)))
  {
    ExampleLinesScanned(names, bounds, exs);
    ScanExampleLines(QdatLines(names, bounds, exs), 4 + |names|, exs, 0);
    SliceAll(Names(exs));
    SliceAll(Values(exs));
  }
}
