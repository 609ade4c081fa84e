/**
 * The history reply (`/total`): one line per expense, in the order the rows
 * arrive, between a header and the running grand total.
 */
module History {
  import opened Wrappers
  import opened Seqs
  import opened Numerals
  import opened Tags
  import opened Dates
  import opened Expenses

  const HistoryHeading: string := "Aqui está seu histórico " + "de compras até o momento:"
  /** The heading line and a blank line: the text the message starts from. */
  const HistoryHeader: string := HistoryHeading + "\n\n"
  const NoExpensesMessage: string := "Você ainda não tem despesas registradas."
  const HistoryErrorMessage: string := "Ocorreu um erro ao gerar seu histórico."
  const TotalLabel: string := "Total de tudo: R$ "

  /** A history line without its line break: amount, upper-case tag, the stored date `shown` as day/month/year, comment. */
  function Entry(e: Expense, shown: Date): string
    requires ValidDate(shown)
  {
    Fixed(e.amount, AmountPlaces) + " " + DisplayName(e.tag) + " " + FormatDMY(shown) + " " + e.comment
  }

  /** The line of one row, or `None` when its stored date does not read as `%Y-%m-%d`. */
  function RowLine(e: Expense): Option<string>
  {
    match ParseISO(e.date)
    case None => None
    case Some(shown) => Some(Entry(e, shown))
  }

  /** The history lines of `rows` in order, or `None` once a stored date does not read. */
  function Lines(rows: seq<Expense>): Option<seq<string>>
  {
    MapAll(rows, RowLine)
  }

  function TotalLine(total: real): string
  {
    TotalLabel + Fixed(total, AmountPlaces)
  }

  /** The reply to `/total` for the user's rows, newest first. */
  function HistoryReply(rows: seq<Expense>): string
  {
    if rows == [] then NoExpensesMessage
    else
      match Lines(rows)
      case None => HistoryErrorMessage
      case Some(ls) => Terminated([HistoryHeading, ""] + ls, '\n') + "\n" + TotalLine(Total(rows))
  }

  /** The history loop: a running total and a message grown one line per row. */
  method BuildHistory(rows: seq<Expense>) returns (reply: string)
    ensures reply == HistoryReply(rows)
  {
    if rows == [] {
      return NoExpensesMessage;
    }
    var total := 0.0;
    var message := HistoryHeader;
    HeaderLines();
    var i := 0;
    while i < |rows|
      invariant 0 <= i <= |rows|
      invariant Lines(rows[..i]).Some?
      invariant total == Total(rows[..i])
      invariant message == Terminated([HistoryHeading, ""] + Lines(rows[..i]).value, '\n')
    {
      var e := rows[i];
      total := total + e.amount;
      match ParseISO(e.date)
      case None =>
        UnreadableRow(rows, i);
        return HistoryErrorMessage;
      case Some(shown) =>
        assert RowLine(e) == Some(Entry(e, shown));
        TerminatedMapAllStep([HistoryHeading, ""], rows, i, RowLine, '\n');
        SumByStep(rows, i, AmountOf);
        message := message + Entry(e, shown) + "\n";
        i := i + 1;
    }
    assert rows[..i] == rows;
    message := message + "\n" + TotalLine(total);
    return message;
  }

  lemma HeaderLines()
    ensures Terminated([HistoryHeading, ""], '\n') == HistoryHeader
  {
    var h := HistoryHeading;
    assert Terminated([h], '\n') == h + ['\n'] by {
      assert [h][..0] == [];
    }
    assert [h, ""][..1] == [h];
    assert h + ['\n'] + "" + ['\n'] == h + "\n\n";
  }

  /** A row whose date does not read makes the whole history unreadable. */
  lemma UnreadableRow(rows: seq<Expense>, i: nat)
    requires i < |rows| && ParseISO(rows[i].date).None?
    ensures Lines(rows).None?
  {
    MapAllFails(rows, i, RowLine);
  }

  /**
   * The lines are exactly the rows' entries: they exist when every stored date
   * reads, and then there is one per row, in the rows' order, showing that
   * row's date.
   */
  lemma LinesEntries(rows: seq<Expense>)
    ensures Lines(rows).Some? <==> forall i :: 0 <= i < |rows| ==> ParseISO(rows[i].date).Some?
    ensures Lines(rows).Some? ==>
      |Lines(rows).value| == |rows|
      && forall i :: 0 <= i < |rows| ==> Lines(rows).value[i] == Entry(rows[i], ParseISO(rows[i].date).value)
  {
    MapAllSpec(rows, RowLine);
  }

  /** An entry has no line break when its comment has none. */
  lemma EntryOneLine(e: Expense, shown: Date)
    requires ValidDate(shown) && '\n' !in e.comment
    ensures '\n' !in Entry(e, shown)
  {
    FixedExcludes(e.amount, AmountPlaces, '\n');
    DisplayNameOneWord(e.tag);
    FormatDMYExcludes(shown, '\n');
  }

  /** No history line holds a line break when no comment does. */
  lemma LinesOneLine(rows: seq<Expense>)
    requires Lines(rows).Some?
    requires forall i :: 0 <= i < |rows| ==> '\n' !in rows[i].comment
    ensures forall k :: 0 <= k < |Lines(rows).value| ==> '\n' !in Lines(rows).value[k]
  {
    LinesEntries(rows);
    forall k | 0 <= k < |rows|
      ensures '\n' !in Lines(rows).value[k]
    {
      EntryOneLine(rows[k], ParseISO(rows[k].date).value);
    }
  }

  /**
   * The layout of a history: read line by line it is the heading, a blank
   * line, one entry per row in the order of the rows, a blank line and the
   * total line (provided no comment holds a line break of its own).
   */
  lemma HistoryLayout(rows: seq<Expense>)
    requires rows != [] && Lines(rows).Some?
    requires forall i :: 0 <= i < |rows| ==> '\n' !in rows[i].comment
    ensures Split(HistoryReply(rows), '\n') == [HistoryHeading, ""] + Lines(rows).value + ["", TotalLine(Total(rows))]
  {
    var ls, last := [HistoryHeading, ""] + Lines(rows).value, TotalLine(Total(rows));
    LinesOneLine(rows);
    HeadingOneLine(Lines(rows).value);
    TotalLineOneLine(Total(rows));
    assert HistoryReply(rows) == Terminated(ls, '\n') + ['\n'] + last;
    SplitTerminatedLast(ls, last, '\n');
  }

  lemma HeadingOneLine(ls: seq<string>)
    requires forall k :: 0 <= k < |ls| ==> '\n' !in ls[k]
    ensures forall k :: 0 <= k < |ls| + 2 ==> '\n' !in ([HistoryHeading, ""] + ls)[k]
  {
    assert '\n' !in "Aqui está seu histórico ";
    assert '\n' !in "de compras até o momento:";
  }

  lemma TotalLineOneLine(total: real)
    ensures '\n' !in TotalLine(total)
  {
    FixedExcludes(total, AmountPlaces, '\n');
    assert '\n' !in TotalLabel;
  }

  /**
   * Each history line reads back as its row: the first word is the amount to
   * within half a cent, the second lower-cases to the row's tag, the third is
   * the stored date in day/month/year order, and the remaining words are the
   * comment's.
   */
  lemma EntryReadsBack(e: Expense, shown: Date)
    requires ValidDate(shown)
    ensures var fields := Split(Entry(e, shown), ' ');
      |fields| >= 4
      && fields[3..] == Split(e.comment, ' ')
      && WithinHalfCent(fields[0], e.amount)
      && ParseTag(Lower(fields[1])) == Some(e.tag)
      && ParseDMY(fields[2]) == Some(shown)
  {
    var date := shown;
    var a, t, d := Fixed(e.amount, AmountPlaces), DisplayName(e.tag), FormatDMY(date);
    FixedExcludes(e.amount, AmountPlaces, ' ');
    DisplayNameOneWord(e.tag);
    FormatDMYExcludes(date, ' ');
    assert Entry(e, shown) == a + [' '] + t + [' '] + d + [' '] + e.comment;
    TerminatedThree(a, t, d, e.comment, ' ');
    SplitTerminated([a, t, d], e.comment, ' ');
    var fields := Split(Entry(e, shown), ' ');
    assert fields[0] == a && fields[1] == t && fields[2] == d;
    AmountReadsBack(e.amount);
    DisplayNameCase(e.tag);
    ParseTagExact(Name(e.tag));
    ParseDMYComplete(date, FieldDigits, FieldDigits);
  }
}
