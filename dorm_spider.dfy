/**
 * The spider's extraction step: each row of the meal table becomes one record holding a
 * date label and the breakfast, lunch and dinner texts. CSS selection is abstracted away:
 * a row arrives as the texts the selectors would return.
 */
module DormSpider {
  import opened Wrappers
  import opened PyStr

  /** "미운영" ("not operating"), used for every meal with no text. */
  const Sentinel: string := "\U{BBF8}\U{C6B4}\U{C601}"

  /**
   * One table row: the first text node of `th a` (if any), the first text node of `th`
   * (if any), and for each `td` in order its text nodes in document order.
   */
  datatype Row = Row(anchorText: Option<string>, thText: Option<string>, cells: seq<seq<string>>)

  /** One output record, the four columns date, breakfast, lunch, dinner. */
  datatype Record = Record(date: string, breakfast: string, lunch: string, dinner: string)

  /** No text node of the cell contains `c`. */
  predicate Avoids(texts: seq<string>, c: char)
  {
    forall j, i :: 0 <= j < |texts| && 0 <= i < |texts[j]| ==> texts[j][i] != c
  }

  /** Every text node of the cell is blank, as is the case for a cell with none. */
  predicate AllBlank(texts: seq<string>)
  {
    forall i :: 0 <= i < |texts| ==> IsBlank(texts[i])
  }

  /** `[t.strip() for t in texts]`. */
  function StripAll(texts: seq<string>): (r: seq<string>)
    ensures |r| == |texts|
    ensures forall i :: 0 <= i < |texts| ==> r[i] == Strip(texts[i])
  {
    seq(|texts|, i requires 0 <= i < |texts| => Strip(texts[i]))
  }

  /** `[t for t in ts if t]`: the non-empty strings, in order. */
  function NonEmpty(ts: seq<string>): (r: seq<string>)
    ensures |r| <= |ts|
    ensures forall j :: 0 <= j < |r| ==> r[j] != ""
    ensures r == [] <==> forall i :: 0 <= i < |ts| ==> ts[i] == ""
    decreases |ts|
  {
    if ts == [] then []
    else
      assert forall i :: 1 <= i < |ts| ==> ts[i] == ts[1..][i - 1];
      (if ts[0] == "" then [] else [ts[0]]) + NonEmpty(ts[1..])
  }

  /** The stripped text nodes of a cell with blank ones dropped, in document order. */
  function Fragments(texts: seq<string>): (r: seq<string>)
    ensures |r| <= |texts|
    ensures forall j :: 0 <= j < |r| ==> r[j] != ""
    ensures r == [] <==> AllBlank(texts)
  {
    NonEmpty(StripAll(texts))
  }

  /** Each fragment is trimmed: it neither starts nor ends with whitespace. */
  lemma {:induction false} NonEmptyTrimmed(ts: seq<string>)
    requires forall i :: 0 <= i < |ts| ==> ts[i] != "" ==> !IsSpace(ts[i][0]) && !IsSpace(ts[i][|ts[i]| - 1])
    ensures forall j :: 0 <= j < |NonEmpty(ts)| ==>
      NonEmpty(ts)[j] != "" && !IsSpace(NonEmpty(ts)[j][0]) && !IsSpace(NonEmpty(ts)[j][|NonEmpty(ts)[j]| - 1])
    decreases |ts|
  {
    if ts != [] {
      assert forall i :: 0 <= i < |ts| - 1 ==> ts[1..][i] == ts[i + 1];
      NonEmptyTrimmed(ts[1..]);
    }
  }

  lemma FragmentsTrimmed(texts: seq<string>)
    ensures forall j :: 0 <= j < |Fragments(texts)| ==>
      Fragments(texts)[j] != "" && !IsSpace(Fragments(texts)[j][0]) && !IsSpace(Fragments(texts)[j][|Fragments(texts)[j]| - 1])
  {
    NonEmptyTrimmed(StripAll(texts));
  }

  /** Filtering keeps only strings it was given. */
  lemma {:induction false} NonEmptyKeeps(ts: seq<string>)
    ensures forall x :: x in NonEmpty(ts) ==> x in ts
    decreases |ts|
  {
    if ts != [] {
      NonEmptyKeeps(ts[1..]);
      assert forall x :: x in ts[1..] ==> x in ts;
    }
  }

  /** A character found in no text node is found in no fragment. */
  lemma FragmentsAvoid(texts: seq<string>, c: char)
    requires Avoids(texts, c)
    ensures Avoids(Fragments(texts), c)
  {
    var f := Fragments(texts);
    NonEmptyKeeps(StripAll(texts));
    forall j, i | 0 <= j < |f| && 0 <= i < |f[j]| ensures f[j][i] != c {
      var stripped := StripAll(texts);
      assert f[j] in stripped;
      var n :| 0 <= n < |stripped| && stripped[n] == f[j];
      var t := texts[n];
      StripSlice(t);
      var k :| StrippedAt(t, Strip(t), k);
      assert f[j][i] == t[k..k + |f[j]|][i] == t[k + i];
    }
  }

  /** `join_text`: the fragments joined with `&`, or the sentinel when there are none. */
  function JoinText(texts: seq<string>): (r: string)
    ensures r != ""
    ensures AllBlank(texts) ==> r == Sentinel
    ensures !AllBlank(texts) ==> r == Join(Fragments(texts))
  {
    var f := Fragments(texts);
    if f != [] then JoinNonEmpty(f); Join(f) else Sentinel
  }

  /** The date label: the anchor text unless it is missing or empty, else the `th` text, else empty; then stripped. */
  function DateText(row: Row): (r: string)
    ensures r != [] ==> !IsSpace(r[0]) && !IsSpace(r[|r| - 1])
    ensures row.anchorText.Some? && row.anchorText.value != "" ==> r == Strip(row.anchorText.value)
    ensures (row.anchorText.None? || row.anchorText.value == "") && row.thText.Some? ==> r == Strip(row.thText.value)
    ensures (row.anchorText.None? || row.anchorText.value == "") && row.thText.None? ==> r == ""
  {
    var shown := if row.anchorText.Some? && row.anchorText.value != "" then row.anchorText.value
                 else row.thText.GetOr("");
    Strip(shown)
  }

  /** The text of meal cell `i`, or the sentinel when the row has no such cell. */
  function MealAt(cells: seq<seq<string>>, i: nat): (r: string)
    ensures r != ""
    ensures i < |cells| ==> r == JoinText(cells[i])
    ensures |cells| <= i ==> r == Sentinel
  {
    if i < |cells| then JoinText(cells[i]) else Sentinel
  }

  /** One record per row: cells 0, 1 and 2 are breakfast, lunch and dinner. */
  function Assemble(row: Row): (r: Record)
    ensures r.date == DateText(row)
    ensures r.breakfast != "" && r.lunch != "" && r.dinner != ""
    ensures r.breakfast == (if 0 < |row.cells| then JoinText(row.cells[0]) else Sentinel)
    ensures r.lunch == (if 1 < |row.cells| then JoinText(row.cells[1]) else Sentinel)
    ensures r.dinner == (if 2 < |row.cells| then JoinText(row.cells[2]) else Sentinel)
  {
    Record(DateText(row), MealAt(row.cells, 0), MealAt(row.cells, 1), MealAt(row.cells, 2))
  }

  /** `parse`: the rows of the table, in order, each turned into its record. */
  method Parse(rows: seq<Row>) returns (records: seq<Record>)
    ensures |records| == |rows|
    ensures forall i :: 0 <= i < |rows| ==> records[i] == Assemble(rows[i])
  {
    records := [];
    for i := 0 to |rows|
      invariant |records| == i
      invariant forall j :: 0 <= j < i ==> records[j] == Assemble(rows[j])
    {
      AppendKeepsMapped(Assemble, rows, records);
      records := records + [Assemble(rows[i])];
    }
  }

  /**
   * Appending the image of the next element keeps `ys` the element-wise image of a prefix
   * of `xs`. Stated for any `f` so that the records are compared without unfolding `Assemble`.
   */
  lemma AppendKeepsMapped<A, B>(f: A -> B, xs: seq<A>, ys: seq<B>)
    requires |ys| < |xs| && forall j :: 0 <= j < |ys| ==> ys[j] == f(xs[j])
    ensures forall j :: 0 <= j <= |ys| ==> (ys + [f(xs[|ys|])])[j] == f(xs[j])
  {
  }

  /** Filtering commutes with concatenation. */
  lemma {:induction false} NonEmptyAppend(a: seq<string>, b: seq<string>)
    ensures NonEmpty(a + b) == NonEmpty(a) + NonEmpty(b)
    decreases |a|
  {
    if a == [] {
      assert a + b == b;
    } else {
      assert (a + b)[0] == a[0] && (a + b)[1..] == a[1..] + b;
      NonEmptyAppend(a[1..], b);
    }
  }

  /** Fragments of consecutive text runs are the fragments of each run, in order: no reordering, no deduplication. */
  lemma FragmentsAppend(a: seq<string>, b: seq<string>)
    ensures Fragments(a + b) == Fragments(a) + Fragments(b)
  {
    assert StripAll(a + b) == StripAll(a) + StripAll(b);
    NonEmptyAppend(StripAll(a), StripAll(b));
  }

  /** A blank text node contributes nothing, wherever it stands. */
  lemma JoinTextDropsBlank(a: seq<string>, x: string, b: seq<string>)
    requires IsBlank(x)
    ensures JoinText(a + [x] + b) == JoinText(a + b)
  {
    FragmentsAppend(a + [x], b);
    FragmentsAppend(a, [x]);
    FragmentsAppend(a, b);
    assert Fragments([x]) == [] by {
      assert AllBlank([x]);
    }
    assert Fragments(a) + [] == Fragments(a);
    SameFragmentsSameText(a + [x] + b, a + b);
  }

  /** The joined text depends on the text nodes only through their fragments. */
  lemma SameFragmentsSameText(t1: seq<string>, t2: seq<string>)
    requires Fragments(t1) == Fragments(t2)
    ensures JoinText(t1) == JoinText(t2)
  {
  }

  /** Two runs of text nodes that each hold real text are joined with one `&` between them. */
  lemma JoinTextAppend(a: seq<string>, b: seq<string>)
    requires !AllBlank(a) && !AllBlank(b)
    ensures JoinText(a + b) == JoinText(a) + "&" + JoinText(b)
  {
    FragmentsAppend(a, b);
    JoinAppend(Fragments(a), Fragments(b));
  }

  /** Splitting the joined text at `&` gives back the fragments, in document order, when no text node holds `&`. */
  lemma JoinTextSplit(texts: seq<string>)
    requires !AllBlank(texts)
    requires Avoids(texts, '&')
    ensures Split(JoinText(texts)) == Fragments(texts)
  {
    FragmentsAvoid(texts, '&');
    SplitJoin(Fragments(texts));
  }

  /** The date falls back to `th` only when the anchor text is missing or empty, not when it is blank. */
  lemma BlankAnchorGivesEmptyDate(th: Option<string>, cells: seq<seq<string>>)
    ensures DateText(Row(Some(" "), th, cells)) == ""
  {
  }

  /** Cells after the third never change the record. */
  lemma ExtraCellsIgnored(row: Row, extra: seq<seq<string>>)
    requires |row.cells| >= 3
    ensures Assemble(row.(cells := row.cells + extra)) == Assemble(row)
  {
    var longer := row.(cells := row.cells + extra);
    assert longer.cells[0] == row.cells[0] && longer.cells[1] == row.cells[1] && longer.cells[2] == row.cells[2];
  }

  /** A row with two cells gets the sentinel for dinner. */
  lemma TwoCellsNoDinner(row: Row)
    requires |row.cells| == 2
    ensures Assemble(row).breakfast == JoinText(row.cells[0])
    ensures Assemble(row).lunch == JoinText(row.cells[1])
    ensures Assemble(row).dinner == Sentinel
  {
  }

  /** The text nodes `A`, ` B ` and an empty one strip to `A`, `B` and an empty one. */
  lemma StripAllExample()
    ensures StripAll(["A", " B ", ""]) == ["A", "B", ""]
  {
    StripUnchanged("A");
    assert " " + "B" + " " == " B ";
    StripUnique(" ", "B", " ");
    assert Strip("") == "";
  }

  /** Filtering `A`, `B` and an empty string keeps `A` and `B`. */
  lemma NonEmptyExample()
    ensures NonEmpty(["A", "B", ""]) == ["A", "B"]
  {
    var stripped := ["A", "B", ""];
    assert stripped[1..] == ["B", ""] && stripped[1..][1..] == [""] && [""][1..] == [];
    assert NonEmpty([""]) == [];
    assert NonEmpty(["B", ""]) == ["B"];
  }

  /** Text nodes `A`, ` B ` and an empty one give `A&B`. */
  lemma JoinTextExample()
    ensures JoinText(["A", " B ", ""]) == "A&B"
  {
    var texts := ["A", " B ", ""];
    StripAllExample();
    NonEmptyExample();
    var f := Fragments(texts);
    assert f == ["A", "B"];
    assert JoinText(texts) == Join(f);
    assert Join(["A", "B"]) == "A" + "&" + "B";
  }

  const Rice: string := "\U{C300}\U{BC25}"
  const Soup: string := "\U{B41C}\U{C7A5}\U{AD6D}"
  const Pork: string := "\U{C81C}\U{C721}\U{BCF6}\U{C74C}"

  /** The cell [쌀밥, 된장국] gives 쌀밥&된장국. */
  lemma RiceAndSoupText()
    ensures JoinText([Rice, Soup]) == Rice + "&" + Soup
  {
    StripUnchanged(Rice);
    StripUnchanged(Soup);
    assert StripAll([Rice, Soup]) == [Rice, Soup];
    assert [Rice, Soup][1..] == [Soup] && [Soup][1..] == [];
    assert NonEmpty([Soup]) == [Soup];
    assert NonEmpty([Rice, Soup]) == [Rice, Soup];
    assert Join([Rice, Soup]) == Rice + "&" + Soup;
  }

  /** The cell [제육볶음] gives 제육볶음. */
  lemma PorkText()
    ensures JoinText([Pork]) == Pork
  {
    StripUnchanged(Pork);
    assert StripAll([Pork]) == [Pork];
    assert [Pork][1..] == [];
    assert NonEmpty([Pork]) == [Pork];
  }

  /** A row labelled 03/10(월) with cells [쌀밥, 된장국], [] and [제육볶음]. */
  lemma AssembleExample()
    ensures Assemble(Row(Some("03/10(\U{C6D4})"), None, [[Rice, Soup], [], [Pork]]))
         == Record("03/10(\U{C6D4})", Rice + "&" + Soup, Sentinel, Pork)
  {
    StripUnchanged("03/10(\U{C6D4})");
    RiceAndSoupText();
    PorkText();
    var cells: seq<seq<string>> := [[Rice, Soup], [], [Pork]];
    assert cells[0] == [Rice, Soup] && cells[1] == [] && cells[2] == [Pork];
  }
}
