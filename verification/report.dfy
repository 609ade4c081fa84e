/**
 * The report reply (`/relatorio`): the amounts added up per tag, the tags
 * listed from the largest total down with their share of the grand total,
 * and the grand total.
 */
module Report {
  import opened Wrappers
  import opened Seqs
  import opened Numerals
  import opened Tags
  import opened Expenses

  /** One entry of the per-tag dictionary: a tag and the sum of its amounts. */
  datatype Item = Item(tag: Tag, total: real)

  /** The sort key: an item's total. */
  function ItemTotal(item: Item): real
  {
    item.total
  }

  function ItemTag(item: Item): Tag
  {
    item.tag
  }

  const ReportHeading: string := "Aqui está o relatorio:"
  /** The heading line and a blank line: the text the message starts from. */
  const ReportHeader: string := ReportHeading + "\n\n"
  const NoExpensesGuidance: string := "Você ainda não possui despesas registradas. Use /adicionar para começar."
  const ReportErrorMessage: string := "Ocorreu um erro ao gerar seu relatório. Tente novamente."
  const GrandTotalLabel: string := "TOTAL GERAL : R$ "

  /** Shares are shown with one decimal (`:.1f`). */
  const PercentPlaces: nat := 1

  /** The tags of `rows` in the order they first appear, as the keys of an insertion-ordered dictionary are. */
  function TagsOf(rows: seq<Expense>): seq<Tag>
  {
    if rows == [] then []
    else
      var ts := TagsOf(rows[..|rows| - 1]);
      if rows[|rows| - 1].tag in ts then ts else ts + [rows[|rows| - 1].tag]
  }

  /** The sum of the amounts of the rows tagged `t`, added up first to last. */
  function TagTotal(rows: seq<Expense>, t: Tag): (r: real)
    ensures (forall i :: 0 <= i < |rows| ==> rows[i].amount >= 0.0) ==> r >= 0.0
    ensures (forall i :: 0 <= i < |rows| ==> rows[i].tag != t) ==> r == 0.0
  {
    if rows == [] then 0.0
    else TagTotal(rows[..|rows| - 1], t) + (if rows[|rows| - 1].tag == t then rows[|rows| - 1].amount else 0.0)
  }

  /** The items of the tags `ts`, in that order, each with its total over `rows`. */
  function ItemsOf(ts: seq<Tag>, rows: seq<Expense>): seq<Item>
  {
    MapSeq(ts, t => Item(t, TagTotal(rows, t)))
  }

  /** The per-tag dictionary's items, in insertion order. */
  function Groups(rows: seq<Expense>): seq<Item>
  {
    ItemsOf(TagsOf(rows), rows)
  }

  /** The items as the report lists them: `sorted(..., key=total, reverse=True)`, which is stable. */
  function Ranked(rows: seq<Expense>): seq<Item>
  {
    SortDesc(Groups(rows), ItemTotal)
  }

  /** `(valor / total_geral) * 100`. */
  function Percent(value: real, grand: real): real
    requires grand != 0.0
  {
    value / grand * 100.0
  }

  /** A report line without its line break: upper-case tag, total with two decimals, share with one. */
  function ReportLine(item: Item, grand: real): string
    requires grand != 0.0
  {
    DisplayName(item.tag) + " : R$ " + Fixed(item.total, AmountPlaces) + " - " + Fixed(Percent(item.total, grand), PercentPlaces) + "%"
  }

  function ReportLines(items: seq<Item>, grand: real): seq<string>
    requires grand != 0.0
  {
    MapSeq(items, item => ReportLine(item, grand))
  }

  function GrandTotalLine(grand: real): string
  {
    GrandTotalLabel + Fixed(grand, AmountPlaces)
  }

  /**
   * The reply to `/relatorio` for the user's rows. A grand total of zero makes
   * the first share a division by zero, which the handler reports as an error.
   */
  function ReportReply(rows: seq<Expense>): string
  {
    if rows == [] then NoExpensesGuidance
    else if Total(rows) == 0.0 then ReportErrorMessage
    else Terminated([ReportHeading, ""] + ReportLines(Ranked(rows), Total(rows)), '\n') + "\n" + GrandTotalLine(Total(rows))
  }

  /** The dictionary's items: each key of `order` with its value in `byTag`. */
  function DictItems(order: seq<Tag>, byTag: map<Tag, real>): (r: seq<Item>)
    requires forall k :: 0 <= k < |order| ==> order[k] in byTag
    ensures |r| == |order| && forall k :: 0 <= k < |order| ==> r[k] == Item(order[k], byTag[order[k]])
  {
    MapSeq(order, t requires t in byTag => Item(t, byTag[t]))
  }

  /**
   * The tally loop: every amount is added to its tag's entry (created at zero
   * on first sight, as a `defaultdict(float)` does) and to the grand total.
   * `order` is the dictionary's insertion order.
   */
  method Tally(rows: seq<Expense>) returns (byTag: map<Tag, real>, order: seq<Tag>, grand: real)
    ensures order == TagsOf(rows)
    ensures forall t :: t in byTag <==> t in order
    ensures forall t :: t in byTag ==> byTag[t] == TagTotal(rows, t)
    ensures grand == Total(rows)
  {
    byTag, order, grand := map[], [], 0.0;
    var i := 0;
    while i < |rows|
      invariant 0 <= i <= |rows|
      invariant order == TagsOf(rows[..i])
      invariant forall t :: t in byTag <==> t in order
      invariant forall t :: t in byTag ==> byTag[t] == TagTotal(rows[..i], t)
      invariant grand == Total(rows[..i])
    {
      var e := rows[i];
      TagsOfStep(rows, i);
      TagTotalSteps(rows, i);
      SumByStep(rows, i, AmountOf);
      if e.tag !in byTag {
        TagTotalAbsent(rows[..i], e.tag);
        byTag := byTag[e.tag := 0.0];
        order := order + [e.tag];
      }
      byTag := byTag[e.tag := byTag[e.tag] + e.amount];
      forall t | t in byTag
        ensures byTag[t] == TagTotal(rows[..i + 1], t)
      {
      }
      grand := grand + e.amount;
      i := i + 1;
    }
    assert rows[..i] == rows;
  }

  /**
   * The report handler: the tally, the items sorted by total, then one line
   * per item appended to the message, and the grand total last.
   */
  method BuildReport(rows: seq<Expense>) returns (reply: string)
    ensures reply == ReportReply(rows)
  {
    if rows == [] {
      return NoExpensesGuidance;
    }
    var byTag, order, grand := Tally(rows);
    var items := DictItems(order, byTag);
    TallyItems(rows, byTag, order);
    var ranked := SortDesc(items, ItemTotal);
    RankedNonEmpty(rows);
    var message := ReportHeader;
    ReportHeaderLines();
    var j := 0;
    while j < |ranked|
      invariant 0 <= j <= |ranked|
      invariant j > 0 ==> grand != 0.0
      invariant grand != 0.0 ==> message == Terminated([ReportHeading, ""] + ReportLines(ranked[..j], grand), '\n')
    {
      if grand == 0.0 {
        return ReportErrorMessage;
      }
      TerminatedMapStep([ReportHeading, ""], ranked, j, item => ReportLine(item, grand), '\n');
      message := message + ReportLine(ranked[j], grand) + "\n";
      j := j + 1;
    }
    PrefixWhole(ranked);
    message := message + "\n" + GrandTotalLine(grand);
    return message;
  }

  /** The tallied dictionary's items are the per-tag groups. */
  lemma TallyItems(rows: seq<Expense>, byTag: map<Tag, real>, order: seq<Tag>)
    requires order == TagsOf(rows)
    requires forall t :: t in byTag <==> t in order
    requires forall t :: t in byTag ==> byTag[t] == TagTotal(rows, t)
    ensures forall k :: 0 <= k < |order| ==> order[k] in byTag
    ensures DictItems(order, byTag) == Groups(rows)
  {
  }

  lemma ReportHeaderLines()
    ensures Terminated([ReportHeading, ""], '\n') == ReportHeader
  {
    var h := ReportHeading;
    assert Terminated([h], '\n') == h + ['\n'] by {
      assert [h][..0] == [];
    }
    assert [h, ""][..1] == [h];
  }

  lemma TagsOfStep(rows: seq<Expense>, i: nat)
    requires i < |rows|
    ensures TagsOf(rows[..i + 1]) == if rows[i].tag in TagsOf(rows[..i]) then TagsOf(rows[..i]) else TagsOf(rows[..i]) + [rows[i].tag]
  {
    var q := rows[..i + 1];
    assert q[..|q| - 1] == rows[..i] && q[|q| - 1] == rows[i];
  }

  lemma TagTotalSteps(rows: seq<Expense>, i: nat)
    requires i < |rows|
    ensures forall t :: TagTotal(rows[..i + 1], t) == TagTotal(rows[..i], t) + (if rows[i].tag == t then rows[i].amount else 0.0)
  {
    var q := rows[..i + 1];
    assert q[..|q| - 1] == rows[..i] && q[|q| - 1] == rows[i];
  }

  /** A tag that has not appeared yet has nothing added up under it. */
  lemma {:induction false} TagTotalAbsent(rows: seq<Expense>, t: Tag)
    requires t !in TagsOf(rows)
    ensures TagTotal(rows, t) == 0.0
  {
    if rows != [] {
      TagTotalAbsent(rows[..|rows| - 1], t);
    }
  }

  lemma RankedNonEmpty(rows: seq<Expense>)
    requires rows != []
    ensures |Ranked(rows)| > 0
  {
  }

  /** Whether some row carries tag `t`. */
  predicate Mentions(rows: seq<Expense>, t: Tag)
  {
    exists i :: 0 <= i < |rows| && rows[i].tag == t
  }

  /** The first-appearance tags are the rows' tags, each listed once. */
  lemma {:induction false} TagsOfSpec(rows: seq<Expense>)
    ensures forall i, j :: 0 <= i < j < |TagsOf(rows)| ==> TagsOf(rows)[i] != TagsOf(rows)[j]
    ensures forall t :: t in TagsOf(rows) <==> Mentions(rows, t)
  {
    if rows != [] {
      var init, e := rows[..|rows| - 1], rows[|rows| - 1];
      TagsOfSpec(init);
      forall t
        ensures Mentions(rows, t) <==> Mentions(init, t) || e.tag == t
      {
        if Mentions(init, t) {
          var i :| 0 <= i < |init| && init[i].tag == t;
          assert rows[i] == init[i];
        }
        if Mentions(rows, t) {
          var i :| 0 <= i < |rows| && rows[i].tag == t;
          if i < |init| {
            assert init[i] == rows[i];
          }
        }
      }
    }
  }

  /** The items of one more tag: the sum grows by that tag's total. */
  lemma ItemsOfSnoc(ts: seq<Tag>, rows: seq<Expense>)
    requires ts != []
    ensures SumBy(ItemsOf(ts, rows), ItemTotal)
         == SumBy(ItemsOf(ts[..|ts| - 1], rows), ItemTotal) + TagTotal(rows, ts[|ts| - 1])
  {
    var a := ItemsOf(ts, rows);
    assert a[..|a| - 1] == ItemsOf(ts[..|ts| - 1], rows);
  }

  /**
   * Adding the last row to the sums of distinct tags `ts` adds its amount once
   * when its tag is among them, and nothing otherwise.
   */
  lemma {:induction false} ItemsOfLastRow(ts: seq<Tag>, rows: seq<Expense>)
    requires rows != []
    requires forall i, j :: 0 <= i < j < |ts| ==> ts[i] != ts[j]
    ensures SumBy(ItemsOf(ts, rows), ItemTotal) == SumBy(ItemsOf(ts, rows[..|rows| - 1]), ItemTotal)
            + (if rows[|rows| - 1].tag in ts then rows[|rows| - 1].amount else 0.0)
    decreases |ts|
  {
    if ts != [] {
      var init, e := rows[..|rows| - 1], rows[|rows| - 1];
      var us, u := ts[..|ts| - 1], ts[|ts| - 1];
      ItemsOfLastRow(us, rows);
      ItemsOfSnoc(ts, rows);
      ItemsOfSnoc(ts, init);
      assert ts == us + [u];
      assert e.tag in ts <==> e.tag in us || e.tag == u;
      assert u !in us;
    }
  }

  /** The per-tag totals add up to the grand total: no amount is lost or counted twice. */
  lemma {:induction false} GroupsSum(rows: seq<Expense>)
    ensures SumBy(Groups(rows), ItemTotal) == Total(rows)
  {
    if rows != [] {
      var init, e := rows[..|rows| - 1], rows[|rows| - 1];
      var ts := TagsOf(init);
      GroupsSum(init);
      TagsOfSpec(init);
      ItemsOfLastRow(ts, rows);
      if e.tag !in ts {
        var ts' := ts + [e.tag];
        calc {
          SumBy(Groups(rows), ItemTotal);
          SumBy(ItemsOf(ts', rows), ItemTotal);
          { ItemsOfSnoc(ts', rows); assert ts'[..|ts|] == ts; }
          SumBy(ItemsOf(ts, rows), ItemTotal) + TagTotal(rows, e.tag);
          { TagTotalAbsent(init, e.tag); }
          SumBy(ItemsOf(ts, init), ItemTotal) + e.amount;
        }
      }
    }
  }

  /** Every listed item carries its tag's total. */
  lemma RankedTotals(rows: seq<Expense>)
    ensures forall k :: 0 <= k < |Ranked(rows)| ==> Ranked(rows)[k].total == TagTotal(rows, Ranked(rows)[k].tag)
  {
    SortDescAll(Groups(rows), ItemTotal, (item: Item) => item.total == TagTotal(rows, item.tag));
  }

  /** The listed totals add up to the grand total. */
  lemma RankedSum(rows: seq<Expense>)
    ensures SumBy(Ranked(rows), ItemTotal) == Total(rows)
  {
    SortDescSum(Groups(rows), ItemTotal, ItemTotal);
    GroupsSum(rows);
  }

  /**
   * Each tag of the rows is listed exactly once and no other tag is: the tags
   * are distinct, and a tag is listed exactly when some row carries it.
   */
  lemma RankedTags(rows: seq<Expense>, t: Tag)
    ensures DistinctBy(Ranked(rows), ItemTag)
    ensures Mentions(rows, t) <==> exists k :: 0 <= k < |Ranked(rows)| && Ranked(rows)[k].tag == t
  {
    var g, r := Groups(rows), Ranked(rows);
    GroupsTags(rows);
    SortDescDistinct(g, ItemTotal, ItemTag);
    if Mentions(rows, t) {
      var m :| 0 <= m < |g| && g[m].tag == t;
      SortDescMember(g, ItemTotal, g[m]);
      var k :| 0 <= k < |r| && r[k] == g[m];
    }
    if exists k :: 0 <= k < |r| && r[k].tag == t {
      var k :| 0 <= k < |r| && r[k].tag == t;
      SortDescMember(g, ItemTotal, r[k]);
    }
  }

  /** The groups carry the first-appearance tags in order, so each tag of the rows once. */
  lemma GroupsTags(rows: seq<Expense>)
    ensures DistinctBy(Groups(rows), ItemTag)
    ensures forall t :: Mentions(rows, t) <==> exists m :: 0 <= m < |Groups(rows)| && Groups(rows)[m].tag == t
  {
    TagsOfSpec(rows);
    var g, ts := Groups(rows), TagsOf(rows);
    assert forall m :: 0 <= m < |g| ==> g[m].tag == ts[m];
  }

  /**
   * The list runs from the largest total down, and items with equal totals
   * keep the order in which their tags first appeared; they are not ordered
   * by name.
   */
  lemma RankedOrder(rows: seq<Expense>, v: real)
    ensures SortedDesc(Ranked(rows), ItemTotal)
    ensures KeepKey(Ranked(rows), ItemTotal, v) == KeepKey(Groups(rows), ItemTotal, v)
  {
    SortDescSorted(Groups(rows), ItemTotal);
    SortDescStable(Groups(rows), ItemTotal, v);
  }

  /** With positive amounts a tag's total is positive when it occurs and never exceeds the grand total. */
  lemma {:induction false} TagTotalBounds(rows: seq<Expense>, t: Tag)
    requires forall i :: 0 <= i < |rows| ==> rows[i].amount > 0.0
    ensures 0.0 <= TagTotal(rows, t) <= Total(rows)
    ensures Mentions(rows, t) ==> TagTotal(rows, t) > 0.0
  {
    if rows != [] {
      var init, e := rows[..|rows| - 1], rows[|rows| - 1];
      TagTotalBounds(init, t);
      if Mentions(rows, t) && e.tag != t {
        var i :| 0 <= i < |rows| && rows[i].tag == t;
        assert init[i] == rows[i];
      }
    }
  }

  /**
   * With positive amounts there is no division by zero, and every share lies
   * above 0% and at most 100%.
   */
  lemma SharesBounded(rows: seq<Expense>)
    requires rows != []
    requires forall i :: 0 <= i < |rows| ==> rows[i].amount > 0.0
    ensures Total(rows) > 0.0
    ensures forall k :: 0 <= k < |Ranked(rows)| ==> 0.0 < Percent(Ranked(rows)[k].total, Total(rows)) <= 100.0
  {
    var grand := Total(rows);
    TagTotalBounds(rows, rows[0].tag);
    TagsOfSpec(rows);
    forall k | 0 <= k < |Groups(rows)|
      ensures 0.0 < Groups(rows)[k].total <= grand
    {
      TagTotalBounds(rows, TagsOf(rows)[k]);
    }
    SortDescAll(Groups(rows), ItemTotal, (item: Item) => 0.0 < item.total <= grand);
    forall k | 0 <= k < |Ranked(rows)|
      ensures 0.0 < Percent(Ranked(rows)[k].total, grand) <= 100.0
    {
      ShareBound(Ranked(rows)[k].total, grand);
    }
  }

  lemma ShareBound(v: real, grand: real)
    requires 0.0 < v <= grand
    ensures 0.0 < Percent(v, grand) <= 100.0
  {
    assert v / grand <= 1.0;
  }

  /** The sum of the shares of `items`, added up first to last. */
  function ShareSum(items: seq<Item>, grand: real): real
    requires grand != 0.0
  {
    if items == [] then 0.0 else ShareSum(items[..|items| - 1], grand) + Percent(items[|items| - 1].total, grand)
  }

  /** The sum of the shares is the share of the sum. */
  lemma {:induction false} ShareSumScale(items: seq<Item>, grand: real)
    requires grand != 0.0
    ensures ShareSum(items, grand) == Percent(SumBy(items, ItemTotal), grand)
  {
    if items != [] {
      var init, last := items[..|items| - 1], items[|items| - 1];
      ShareSumScale(init, grand);
      ShareAdd(SumBy(init, ItemTotal), last.total, grand);
    }
  }

  lemma ShareAdd(a: real, b: real, grand: real)
    requires grand != 0.0
    ensures Percent(a, grand) + Percent(b, grand) == Percent(a + b, grand)
  {
  }

  /** The shares of the listed items add up to 100%, in exact arithmetic. */
  lemma SharesSum(rows: seq<Expense>)
    requires Total(rows) != 0.0
    ensures ShareSum(Ranked(rows), Total(rows)) == 100.0
  {
    RankedSum(rows);
    ShareSumScale(Ranked(rows), Total(rows));
    WholeShare(Total(rows));
  }

  lemma WholeShare(grand: real)
    requires grand != 0.0
    ensures Percent(grand, grand) == 100.0
  {
    assert grand / grand == 1.0;
  }

  /** No report line holds a line break. */
  lemma ReportLineOneLine(item: Item, grand: real)
    requires grand != 0.0
    ensures '\n' !in ReportLine(item, grand)
  {
    DisplayNameOneWord(item.tag);
    FixedExcludes(item.total, AmountPlaces, '\n');
    FixedExcludes(Percent(item.total, grand), PercentPlaces, '\n');
  }

  /**
   * The layout of a report: read line by line it is the heading, a blank line,
   * one line per item in the listed order, a blank line and the grand total.
   */
  lemma ReportLayout(rows: seq<Expense>)
    requires rows != [] && Total(rows) != 0.0
    ensures Split(ReportReply(rows), '\n')
         == [ReportHeading, ""] + ReportLines(Ranked(rows), Total(rows)) + ["", GrandTotalLine(Total(rows))]
  {
    var grand := Total(rows);
    var lines := ReportLines(Ranked(rows), grand);
    var ls := [ReportHeading, ""] + lines;
    forall k | 0 <= k < |lines|
      ensures '\n' !in lines[k]
    {
      ReportLineOneLine(Ranked(rows)[k], grand);
    }
    HeadingOneLine(lines);
    GrandTotalOneLine(grand);
    assert ReportReply(rows) == Terminated(ls, '\n') + ['\n'] + GrandTotalLine(grand);
    SplitTerminatedLast(ls, GrandTotalLine(grand), '\n');
  }

  lemma HeadingOneLine(ls: seq<string>)
    requires forall k :: 0 <= k < |ls| ==> '\n' !in ls[k]
    ensures forall k :: 0 <= k < |ls| + 2 ==> '\n' !in ([ReportHeading, ""] + ls)[k]
  {
    assert '\n' !in ReportHeading;
  }

  lemma GrandTotalOneLine(grand: real)
    ensures '\n' !in GrandTotalLine(grand)
  {
    FixedExcludes(grand, AmountPlaces, '\n');
    assert '\n' !in GrandTotalLabel;
  }

  /** `text` reads as a decimal number within half a unit of the first decimal of `x`. */
  predicate WithinHalfTenth(text: string, x: real)
  {
    ParseDecimal(text).Some? && Abs(ParseDecimal(text).value.Real() - x) <= 0.05
  }

  /**
   * Each report line reads back as its item: split at spaces it is the tag
   * (lower-casing to the item's tag), ":", "R$", the total to within half a
   * cent, "-", and the share to within half a tenth of a percent followed by
   * "%".
   */
  lemma ReportLineReadsBack(item: Item, grand: real)
    requires grand != 0.0
    ensures var w := Split(ReportLine(item, grand), ' ');
      |w| == 6 && w[1] == ":" && w[2] == "R$" && w[4] == "-"
      && ParseTag(Lower(w[0])) == Some(item.tag)
      && WithinHalfCent(w[3], item.total)
      && |w[5]| >= 1 && w[5][|w[5]| - 1] == '%'
      && WithinHalfTenth(w[5][..|w[5]| - 1], Percent(item.total, grand))
  {
    var d, a, p := DisplayName(item.tag), Fixed(item.total, AmountPlaces), Fixed(Percent(item.total, grand), PercentPlaces);
    var w := Split(ReportLine(item, grand), ' ');
    assert w == [d, ":", "R$", a, "-", p + "%"] by {
      DisplayNameOneWord(item.tag);
      FixedExcludes(item.total, AmountPlaces, ' ');
      FixedExcludes(Percent(item.total, grand), PercentPlaces, ' ');
      LineWords(d, a, p);
    }
    assert ParseTag(Lower(w[0])) == Some(item.tag) by {
      DisplayNameCase(item.tag);
      ParseTagExact(Name(item.tag));
    }
    assert WithinHalfCent(w[3], item.total) by {
      AmountReadsBack(item.total);
    }
    assert w[5][..|w[5]| - 1] == p;
    ShareReadsBack(Percent(item.total, grand));
  }

  lemma ShareReadsBack(x: real)
    ensures WithinHalfTenth(Fixed(x, PercentPlaces), x)
  {
    FixedAccurate(x, PercentPlaces);
    assert Pow10(PercentPlaces) == 10;
  }

  /** The words of a report line. */
  lemma LineWords(d: string, a: string, p: string)
    requires ' ' !in d && ' ' !in a && ' ' !in p
    ensures Split(d + " : R$ " + a + " - " + p + "%", ' ') == [d, ":", "R$", a, "-", p + "%"]
  {
    var ls := [d, ":", "R$", a, "-"];
    calc {
      Split(d + " : R$ " + a + " - " + p + "%", ' ');
      { LineHead(d, a); assert d + " : R$ " + a + " - " + p + "%" == (d + " : R$ " + a + " - ") + (p + "%"); }
      Split(Terminated(ls, ' ') + (p + "%"), ' ');
      { SplitTerminated(ls, p + "%", ' '); }
      ls + Split(p + "%", ' ');
      { SplitNoSep(p + "%", ' '); }
      ls + [p + "%"];
    }
  }

  /** The words before the share, each followed by a space. */
  lemma LineHead(d: string, a: string)
    ensures Terminated([d, ":", "R$", a, "-"], ' ') == d + " : R$ " + a + " - "
  {
    assert [d, ":", "R$", a, "-"] == [d, ":", "R$", a] + ["-"];
    assert [d, ":", "R$", a] == [d, ":", "R$"] + [a];
    assert [d, ":", "R$"] == [d, ":"] + ["R$"];
    assert [d, ":"] == [d] + [":"];
    assert [d] == [] + [d];
    TerminatedSnoc([], d, ' ');
    TerminatedSnoc([d], ":", ' ');
    TerminatedSnoc([d, ":"], "R$", ' ');
    TerminatedSnoc([d, ":", "R$"], a, ' ');
    TerminatedSnoc([d, ":", "R$", a], "-", ' ');
  }
}
