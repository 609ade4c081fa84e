/**
 * The add command's validation (`/adicionar valor tag DD/MM/AAAA comentário`):
 * the argument tokens either make one expense record or are refused with the
 * first failing check's message.
 */
module Expenses {
  import opened Wrappers
  import opened Seqs
  import opened Numerals
  import opened Tags
  import opened Dates
  import opened Amounts

  /** One stored expense; `date` is the `%Y-%m-%d` text the add command writes. */
  datatype Expense = Expense(userId: int, amount: real, tag: Tag, date: string, comment: string)

  function AmountOf(e: Expense): real
  {
    e.amount
  }

  /** Amounts are shown with two decimals (`:.2f`) in the history and the report. */
  const AmountPlaces: nat := 2

  /** `text` reads as a decimal number within half a cent of `x`. */
  predicate WithinHalfCent(text: string, x: real)
  {
    ParseDecimal(text).Some? && Abs(ParseDecimal(text).value.Real() - x) <= 0.005
  }

  /** An amount shown with two decimals reads back to within half a cent. */
  lemma AmountReadsBack(x: real)
    ensures WithinHalfCent(Fixed(x, AmountPlaces), x)
  {
    FixedAccurate(x, AmountPlaces);
    assert Pow10(AmountPlaces) == 100;
  }

  /** The sum of the amounts of `rows`, added up first to last. */
  function Total(rows: seq<Expense>): real
  {
    SumBy(rows, AmountOf)
  }

  datatype Failure = TooFewArguments | InvalidTag(token: string) | InvalidAmount | InvalidDate

  const UsageMessage: string :=
    "Uso incorreto! O formato agora é:\n/adicionar valor tag DD/MM/AAAA comentário\n\n"
    + "Exemplo: /adicionar 43.54 mercantil 23/04/2025 compra de mês"
  const AmountMessage: string := "O valor deve ser um número positivo."
  const DateMessage: string := "Formato de data inválido. Por favor, use DD/MM/AAAA."
  const AddedMessage: string := "✅ Despesa adicionada com sucesso!"
  const SaveErrorMessage: string := "Ocorreu um erro ao salvar sua despesa."

  /** The reply to a refused command. */
  function FailureMessage(f: Failure): string
  {
    match f
    case TooFewArguments => UsageMessage
    case InvalidTag(token) => "Tag '" + token + "' inválida."
    case InvalidAmount => AmountMessage
    case InvalidDate => DateMessage
  }

  /** The comment: every token after the date, joined by single spaces. */
  function Comment(args: seq<string>): string
    requires |args| >= 4
  {
    Join(args[3..], " ")
  }

  /**
   * The checks of the add command in their order: at least four tokens, then
   * the lower-cased tag, then the amount, then the date. The first failure is
   * the answer; only when all pass is there a record.
   */
  function Validate(userId: int, args: seq<string>): (r: Result<Expense, Failure>)
    ensures r.Ok? ==> r.value.userId == userId && r.value.amount > 0.0
                      && ParseISO(r.value.date).Some? && |r.value.date| == 10
  {
    if |args| < 4 then Err(TooFewArguments)
    else
      var token := Lower(args[1]);
      match ParseTag(token)
      case None => Err(InvalidTag(token))
      case Some(t) =>
        match ParseAmount(args[0])
        case None => Err(InvalidAmount)
        case Some(amount) =>
          match ParseDMY(args[2])
          case None => Err(InvalidDate)
          case Some(d) =>
            ParseISOFormat(d);
            Ok(Expense(userId, amount, t, FormatISO(d), Comment(args)))
  }

  /** Which check decides the outcome, stated check by check, each one only when the earlier ones passed. */
  lemma ValidateOrder(userId: int, args: seq<string>)
    ensures Validate(userId, args) == Err(TooFewArguments) <==> |args| < 4
    ensures |args| >= 4 ==>
      (Validate(userId, args) == Err(InvalidTag(Lower(args[1]))) <==> ParseTag(Lower(args[1])).None?)
    ensures Validate(userId, args) == Err(InvalidAmount) <==>
      |args| >= 4 && ParseTag(Lower(args[1])).Some? && ParseAmount(args[0]).None?
    ensures Validate(userId, args) == Err(InvalidDate) <==>
      |args| >= 4 && ParseTag(Lower(args[1])).Some? && ParseAmount(args[0]).Some? && ParseDMY(args[2]).None?
    ensures Validate(userId, args).Ok? <==>
      |args| >= 4 && ParseTag(Lower(args[1])).Some? && ParseAmount(args[0]).Some? && ParseDMY(args[2]).Some?
  {
  }

  /**
   * An accepted record holds what the tokens say: the tag the lower-cased
   * token names (its stored name is that token), the amount, the date stored
   * as `%Y-%m-%d` that reads back as the date typed, and the joined comment.
   */
  lemma ValidateRecord(userId: int, args: seq<string>)
    requires Validate(userId, args).Ok?
    ensures var e := Validate(userId, args).value;
      |args| >= 4
      && Name(e.tag) == Lower(args[1])
      && Some(e.amount) == ParseAmount(args[0])
      && ParseISO(e.date) == ParseDMY(args[2])
      && e.date == FormatISO(ParseDMY(args[2]).value)
      && e.comment == Comment(args)
  {
    var d := ParseDMY(args[2]).value;
    ParseISOFormat(d);
  }

  /** A tag typed in any case is the same tag: only the lower-cased token matters. */
  lemma TagCaseIgnored(userId: int, args: seq<string>, t: Tag)
    requires |args| >= 4 && Lower(args[1]) == Name(t)
    ensures Validate(userId, args).Ok? || Validate(userId, args) == Err(InvalidAmount)
            || Validate(userId, args) == Err(InvalidDate)
    ensures Validate(userId, args).Ok? ==> Validate(userId, args).value.tag == t
  {
    var token := Lower(args[1]);
    assert ParseTag(token) == Some(t) by {
      ParseTagIgnoresCase(args[1], t);
    }
    if ParseAmount(args[0]).Some? && ParseDMY(args[2]).Some? {
      assert Validate(userId, args).value.tag == t;
    }
  }

  /** The tag is judged first: an unknown tag is reported even when the amount and the date are bad too. */
  lemma BadTagWins(userId: int, args: seq<string>)
    requires |args| >= 4 && ParseTag(Lower(args[1])).None?
    ensures Validate(userId, args) == Err(InvalidTag(Lower(args[1])))
    ensures FailureMessage(Validate(userId, args).error) == "Tag '" + Lower(args[1]) + "' inválida."
  {
  }

  /** "0" and any negative amount are refused with the amount message once the tag is known. */
  lemma NonPositiveAmountRefused(userId: int, args: seq<string>)
    requires |args| >= 4 && ParseTag(Lower(args[1])).Some?
    requires args[0] == "0" || (|args[0]| > 0 && args[0][0] == '-')
    ensures Validate(userId, args) == Err(InvalidAmount)
  {
    if args[0] == "0" {
      assert Value("0") == 0;
      ZeroRejected("0");
    } else {
      MinusRejected(args[0]);
    }
  }

  /**
   * The comment rebuilds its tokens: when the tokens after the date hold no
   * space (as a whitespace-split command line's tokens do), splitting the
   * stored comment at spaces gives them back, and when they are non-empty the
   * comment is too.
   */
  lemma CommentTokens(args: seq<string>)
    requires |args| >= 4
    requires forall i :: 3 <= i < |args| ==> ' ' !in args[i]
    ensures Split(Comment(args), ' ') == args[3..]
    ensures |args[3]| > 0 ==> |Comment(args)| > 0
  {
    SplitJoin(args[3..], ' ');
    JoinHead(args[3..], " ");
  }

  /** A join starts with its first piece. */
  lemma JoinHead(parts: seq<string>, sep: string)
    requires |parts| >= 1
    ensures |Join(parts, sep)| >= |parts[0]|
  {
  }
}
