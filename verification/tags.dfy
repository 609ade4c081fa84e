/**
 * The closed set of expense categories (`ALLOWED_TAGS`), their canonical
 * lower-case names, their upper-case display names, and the case-insensitive
 * lookup the add command performs on the tag token.
 */
module Tags {
  import opened Wrappers
  import opened Numerals

  datatype Tag = Lazer | Mercantil | Gasolina | Gas | Luz | Casa | Agua | Emprestimo | Fies | Academia | Contas

  /** `ALLOWED_TAGS`, in the order the bot lists them. */
  const AllowedTags: seq<Tag> := [Lazer, Mercantil, Gasolina, Gas, Luz, Casa, Agua, Emprestimo, Fies, Academia, Contas]

  /** The canonical (lower-case) name under which a tag is stored. */
  function Name(t: Tag): string
  {
    match t
    case Lazer => "lazer"
    case Mercantil => "mercantil"
    case Gasolina => "gasolina"
    case Gas => "gás"
    case Luz => "luz"
    case Casa => "casa"
    case Agua => "água"
    case Emprestimo => "emprestimo"
    case Fies => "fies"
    case Academia => "academia"
    case Contas => "contas"
  }

  /** The name shown in the history and the report: the stored name upper-cased, as `str.upper()` does. */
  function DisplayName(t: Tag): string
  {
    Upper(Name(t))
  }

  /** The lower-case letters of Latin-1 that `str.upper()` changes: a-z and U+00E0..U+00FE except U+00F7. */
  predicate IsLowerLetter(c: char)
  {
    'a' <= c <= 'z' || ('\U{E0}' <= c <= '\U{FE}' && c != '\U{F7}')
  }

  /** The Latin-1 part of Python's `str.upper()`. */
  function UpperChar(c: char): char
  {
    if IsLowerLetter(c) then (c as int - 32) as char else c
  }

  function Upper(s: string): (r: string)
    ensures |r| == |s| && forall i :: 0 <= i < |s| ==> r[i] == UpperChar(s[i])
  {
    if s == [] then [] else [UpperChar(s[0])] + Upper(s[1..])
  }

  /** The first tag of `tags` whose name is `s`, as a membership test on the list does. */
  function Find(s: string, tags: seq<Tag>): (r: Option<Tag>)
    ensures r.Some? ==> r.value in tags && Name(r.value) == s
    ensures r.None? ==> forall k :: 0 <= k < |tags| ==> Name(tags[k]) != s
  {
    if tags == [] then None
    else if Name(tags[0]) == s then Some(tags[0])
    else Find(s, tags[1..])
  }

  /** The tag an already lower-cased token names, if it is one of `ALLOWED_TAGS`. */
  function ParseTag(s: string): Option<Tag>
  {
    Find(s, AllowedTags)
  }

  /** Where a tag stands in `ALLOWED_TAGS`. */
  function Position(t: Tag): (k: nat)
    ensures k < |AllowedTags| && AllowedTags[k] == t
  {
    match t
    case Lazer => 0
    case Mercantil => 1
    case Gasolina => 2
    case Gas => 3
    case Luz => 4
    case Casa => 5
    case Agua => 6
    case Emprestimo => 7
    case Fies => 8
    case Academia => 9
    case Contas => 10
  }

  /** No name is listed twice in `ALLOWED_TAGS`. */
  lemma AllowedTagsDistinct()
    ensures forall i, j :: 0 <= i < j < |AllowedTags| ==> Name(AllowedTags[i]) != Name(AllowedTags[j])
  {
  }

  lemma NameInjective(t: Tag, u: Tag)
    requires Name(t) == Name(u)
    ensures t == u
  {
  }

  /** The lookup accepts exactly the eleven canonical names, each naming its own tag. */
  lemma ParseTagExact(s: string)
    ensures ParseTag(s).Some? <==> exists t: Tag :: Name(t) == s
    ensures forall t: Tag :: Name(t) == s ==> ParseTag(s) == Some(t)
  {
    forall t: Tag | Name(t) == s
      ensures ParseTag(s) == Some(t)
    {
      assert AllowedTags[Position(t)] == t;
      NameInjective(ParseTag(s).value, t);
    }
  }

  /** Every stored name is a word of lower-case letters. */
  lemma NameLetters(t: Tag)
    ensures |Name(t)| > 0 && forall i :: 0 <= i < |Name(t)| ==> IsLowerLetter(Name(t)[i])
  {
  }

  /** Upper-casing a word of lower-case letters and lower-casing it again gives the word back. */
  lemma UpperLower(s: string)
    requires forall i :: 0 <= i < |s| ==> IsLowerLetter(s[i])
    ensures Lower(Upper(s)) == s
  {
    var r := Lower(Upper(s));
    forall i | 0 <= i < |s|
      ensures r[i] == s[i]
    {
      UpperLowerChar(s[i]);
    }
  }

  lemma UpperLowerChar(c: char)
    requires IsLowerLetter(c)
    ensures LowerChar(UpperChar(c)) == c
  {
  }

  /** Lower-casing a display name gives the stored name back. */
  lemma DisplayNameCase(t: Tag)
    ensures Lower(DisplayName(t)) == Name(t)
  {
    NameLetters(t);
    UpperLower(Name(t));
  }

  /** A display name is one word: no space and no line break. */
  lemma DisplayNameOneWord(t: Tag)
    ensures ' ' !in DisplayName(t) && '\n' !in DisplayName(t)
  {
    NameLetters(t);
    UpperOneWord(Name(t));
  }

  lemma UpperOneWord(s: string)
    requires forall i :: 0 <= i < |s| ==> IsLowerLetter(s[i])
    ensures ' ' !in Upper(s) && '\n' !in Upper(s)
  {
    var d := Upper(s);
    forall i | 0 <= i < |d|
      ensures d[i] != ' ' && d[i] != '\n'
    {
      assert d[i] == UpperChar(s[i]);
    }
  }

  /** The lookup ignores case: any spelling whose lower-case form is a tag's name selects that tag. */
  lemma ParseTagIgnoresCase(token: string, t: Tag)
    requires Lower(token) == Name(t)
    ensures ParseTag(Lower(token)) == Some(t)
  {
    ParseTagExact(Lower(token));
  }
}
