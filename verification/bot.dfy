/**
 * The command handlers over the `despesas` table. The table is every user's
 * rows in insertion order; each handler sees only the caller's rows
 * (`.eq('user_id', ...)`), and whether the database call succeeds is an input
 * (`reachable`): a failed call is answered with the handler's error message.
 */
module Bot {
  import opened Wrappers
  import opened Seqs
  import opened Tags
  import opened Dates
  import opened Expenses
  import opened History
  import opened Report

  const ClearedMessage: string := "🗑️ Todos os seus dados de despesas foram apagados com sucesso!"
  const ClearErrorMessage: string := "Ocorreu um erro ao apagar seus dados. Tente novamente."

  /** The rows of `user`, in table order: `.eq('user_id', user)`. */
  function OwnedBy(rows: seq<Expense>, user: int): (r: seq<Expense>)
    ensures |r| <= |rows| && forall i :: 0 <= i < |r| ==> r[i].userId == user
  {
    if rows == [] then []
    else OwnedBy(rows[..|rows| - 1], user) + (if rows[|rows| - 1].userId == user then [rows[|rows| - 1]] else [])
  }

  /** The rows of every other user, in table order: what deleting `user`'s rows leaves. */
  function OthersOf(rows: seq<Expense>, user: int): (r: seq<Expense>)
    ensures |r| <= |rows| && forall i :: 0 <= i < |r| ==> r[i].userId != user
  {
    if rows == [] then []
    else OthersOf(rows[..|rows| - 1], user) + (if rows[|rows| - 1].userId != user then [rows[|rows| - 1]] else [])
  }

  /** A calendar day as one number that orders days as the calendar does. */
  function DayNumber(d: Date): nat
  {
    d.year * 10000 + d.month * 100 + d.day
  }

  /** The sort key of `.order('expense_date', desc=True)`: the stored date's day number. */
  function DateKey(e: Expense): real
  {
    match ParseISO(e.date)
    case None => 0.0
    case Some(d) => DayNumber(d) as real
  }

  /** The history query's order: latest date first; rows of the same date keep table order. */
  function NewestFirst(rows: seq<Expense>): (r: seq<Expense>)
    ensures |r| == |rows| && multiset(r) == multiset(rows)
  {
    SortDesc(rows, DateKey)
  }

  /** `a` is no later than `b` in the calendar. */
  predicate NotAfter(a: Date, b: Date)
  {
    a.year < b.year || (a.year == b.year && (a.month < b.month || (a.month == b.month && a.day <= b.day)))
  }

  /** What every row the add command writes satisfies: a positive amount and a stored date that reads back. */
  predicate AllStored(rows: seq<Expense>)
  {
    forall i :: 0 <= i < |rows| ==> rows[i].amount > 0.0 && ParseISO(rows[i].date).Some?
  }

  class Store {
    /** The `despesas` table: every user's rows, oldest insert first. */
    var rows: seq<Expense>

    constructor ()
      ensures rows == []
    {
      rows := [];
    }

    /** `/adicionar`: a validated record is inserted when the database answers; otherwise nothing changes. */
    method Add(user: int, args: seq<string>, reachable: bool) returns (reply: string)
      modifies this
      ensures Validate(user, args).Err? ==> reply == FailureMessage(Validate(user, args).error) && rows == old(rows)
      ensures Validate(user, args).Ok? && reachable ==> reply == AddedMessage && rows == old(rows) + [Validate(user, args).value]
      ensures Validate(user, args).Ok? && !reachable ==> reply == SaveErrorMessage && rows == old(rows)
    {
      match Validate(user, args)
      case Err(f) =>
        reply := FailureMessage(f);
      case Ok(e) =>
        if reachable {
          rows := rows + [e];
          reply := AddedMessage;
        } else {
          reply := SaveErrorMessage;
        }
    }

    /** `/total`: the history of the caller's rows, latest date first. */
    method ShowHistory(user: int, reachable: bool) returns (reply: string)
      ensures reply == if reachable then HistoryReply(NewestFirst(OwnedBy(rows, user))) else HistoryErrorMessage
    {
      if !reachable {
        return HistoryErrorMessage;
      }
      reply := BuildHistory(NewestFirst(OwnedBy(rows, user)));
    }

    /** `/relatorio`: the report of the caller's rows, in table order. */
    method ShowReport(user: int, reachable: bool) returns (reply: string)
      ensures reply == if reachable then ReportReply(OwnedBy(rows, user)) else ReportErrorMessage
    {
      if !reachable {
        return ReportErrorMessage;
      }
      reply := BuildReport(OwnedBy(rows, user));
    }

    /** `/limpar`: the caller's rows are deleted and every other user's rows stay, in order. */
    method Clear(user: int, reachable: bool) returns (reply: string)
      modifies this
      ensures reachable ==> reply == ClearedMessage && rows == OthersOf(old(rows), user)
      ensures !reachable ==> reply == ClearErrorMessage && rows == old(rows)
    {
      if !reachable {
        return ClearErrorMessage;
      }
      rows := OthersOf(rows, user);
      reply := ClearedMessage;
    }
  }

  /** A user's rows are exactly the table's rows carrying that user's id. */
  lemma {:induction false} OwnedByMembers(rows: seq<Expense>, user: int)
    ensures forall e :: e in OwnedBy(rows, user) <==> e in rows && e.userId == user
  {
    if rows != [] {
      var init := rows[..|rows| - 1];
      OwnedByMembers(init, user);
      assert rows == init + [rows[|rows| - 1]];
    }
  }

  /**
   * Clearing is confined to the caller: the caller has no rows left, and
   * every other user's rows are exactly what they were, in the same order.
   */
  lemma {:induction false} ClearIsolation(rows: seq<Expense>, user: int, other: int)
    ensures OwnedBy(OthersOf(rows, user), user) == []
    ensures other != user ==> OwnedBy(OthersOf(rows, user), other) == OwnedBy(rows, other)
  {
    if rows != [] {
      var init, e := rows[..|rows| - 1], rows[|rows| - 1];
      var kept := OthersOf(init, user);
      ClearIsolation(init, user, other);
      if e.userId != user {
        assert OthersOf(rows, user) == kept + [e];
        OwnedBySnoc(kept, e, user);
        OwnedBySnoc(kept, e, other);
      } else {
        assert OthersOf(rows, user) == kept;
      }
    }
  }

  /** One more row is seen by its owner, at the end, and by nobody else. */
  lemma OwnedBySnoc(rows: seq<Expense>, e: Expense, user: int)
    ensures OwnedBy(rows + [e], user) == OwnedBy(rows, user) + (if e.userId == user then [e] else [])
  {
    assert (rows + [e])[..|rows|] == rows;
  }

  /** Adding a row changes no other user's history or report. */
  lemma AddIsolation(rows: seq<Expense>, e: Expense, other: int)
    requires e.userId != other
    ensures HistoryReply(NewestFirst(OwnedBy(rows + [e], other))) == HistoryReply(NewestFirst(OwnedBy(rows, other)))
    ensures ReportReply(OwnedBy(rows + [e], other)) == ReportReply(OwnedBy(rows, other))
  {
    assert OwnedBy(rows + [e], other) == OwnedBy(rows, other) by {
      OwnedBySnoc(rows, e, other);
    }
  }

  /** Day numbers order valid dates as the calendar does. */
  lemma DayNumberOrder(a: Date, b: Date)
    requires ValidDate(a) && ValidDate(b)
    ensures DayNumber(a) <= DayNumber(b) <==> NotAfter(a, b)
  {
  }

  /**
   * The history query's order: the result holds the caller's rows, each as
   * often as in the table, and with stored dates that read, each row's date is
   * no earlier than the next row's.
   */
  lemma NewestFirstOrder(rows: seq<Expense>)
    requires forall i :: 0 <= i < |rows| ==> ParseISO(rows[i].date).Some?
    ensures multiset(NewestFirst(rows)) == multiset(rows)
    ensures var h := NewestFirst(rows);
      forall i, j :: 0 <= i < j < |h| ==>
        ParseISO(h[i].date).Some? && ParseISO(h[j].date).Some?
        && NotAfter(ParseISO(h[j].date).value, ParseISO(h[i].date).value)
  {
    var h := NewestFirst(rows);
    SortDescSorted(rows, DateKey);
    SortDescAll(rows, DateKey, (e: Expense) => ParseISO(e.date).Some?);
    forall i, j | 0 <= i < j < |h|
      ensures NotAfter(ParseISO(h[j].date).value, ParseISO(h[i].date).value)
    {
      DayNumberOrder(ParseISO(h[j].date).value, ParseISO(h[i].date).value);
    }
  }

  /** The history's total and the report's grand total agree for the same user, and the report's per-tag totals add up to it. */
  lemma TotalsAgree(rows: seq<Expense>, user: int)
    ensures var mine := OwnedBy(rows, user);
      Total(NewestFirst(mine)) == Total(mine) && SumBy(Ranked(mine), ItemTotal) == Total(mine)
  {
    var mine := OwnedBy(rows, user);
    SortDescSum(mine, DateKey, AmountOf);
    RankedSum(mine);
  }

  /** A validated record satisfies what stored rows satisfy, so the table keeps it when the add command inserts. */
  lemma AddKeepsStored(rows: seq<Expense>, user: int, args: seq<string>)
    requires AllStored(rows) && Validate(user, args).Ok?
    ensures AllStored(rows + [Validate(user, args).value])
  {
    var r := rows + [Validate(user, args).value];
    assert forall i :: 0 <= i < |rows| ==> r[i] == rows[i];
  }

  /** Deleting a user's rows keeps what every remaining row satisfies. */
  lemma {:induction false} ClearKeepsStored(rows: seq<Expense>, user: int)
    requires AllStored(rows)
    ensures AllStored(OthersOf(rows, user))
  {
    if rows != [] {
      var init := rows[..|rows| - 1];
      assert forall i :: 0 <= i < |init| ==> init[i] == rows[i];
      ClearKeepsStored(init, user);
    }
  }

  lemma {:induction false} OwnedByStored(rows: seq<Expense>, user: int)
    requires AllStored(rows)
    ensures AllStored(OwnedBy(rows, user))
  {
    if rows != [] {
      var init := rows[..|rows| - 1];
      assert forall i :: 0 <= i < |init| ==> init[i] == rows[i];
      OwnedByStored(init, user);
    }
  }

  /**
   * On a table written by the add command neither reply fails: every stored
   * date of the caller's rows reads, so the history has a line per row, and
   * a caller with rows has a positive grand total, so no share divides by zero.
   */
  lemma StoredRepliesSucceed(rows: seq<Expense>, user: int)
    requires AllStored(rows)
    ensures Lines(NewestFirst(OwnedBy(rows, user))).Some?
    ensures OwnedBy(rows, user) != [] ==> Total(OwnedBy(rows, user)) > 0.0
  {
    var mine := OwnedBy(rows, user);
    OwnedByStored(rows, user);
    SortDescAll(mine, DateKey, (e: Expense) => ParseISO(e.date).Some?);
    LinesEntries(NewestFirst(mine));
    if mine != [] {
      SharesBounded(mine);
    }
  }

  /**
   * An accepted `/adicionar` shows up in the caller's history: one of its
   * lines is the new record's entry, dated with the day the caller typed.
   */
  lemma AddedEntryShown(rows: seq<Expense>, user: int, args: seq<string>)
    requires |args| >= 4 && AllStored(rows) && Validate(user, args).Ok?
    ensures var e := Validate(user, args).value;
      var h := NewestFirst(OwnedBy(rows + [e], user));
      ParseDMY(args[2]).Some? && Lines(h).Some? && Entry(e, ParseDMY(args[2]).value) in Lines(h).value
  {
    var e := Validate(user, args).value;
    var mine := OwnedBy(rows + [e], user);
    var h := NewestFirst(mine);
    ValidateRecord(user, args);
    assert Lines(h).Some? by {
      AddKeepsStored(rows, user, args);
      StoredRepliesSucceed(rows + [e], user);
    }
    assert e in h by {
      OwnedBySnoc(rows, e, user);
      assert e in mine;
      SortDescMember(mine, DateKey, e);
    }
    var k :| 0 <= k < |h| && h[k] == e;
    LinesEntries(h);
  }
}
