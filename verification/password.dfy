/**
 * The password policy validator (pkg/validators/password.go): one pass over
 * the password's runes sorts each rune into a bucket and counts the length;
 * then each configured minimum is checked on its own and every unmet one
 * contributes one reason to the error.
 */
module Password {

  import opened Wrappers
  import opened Errors
  import opened Models
  import Text

  /**
   * The Unicode category predicates of Go's `unicode` package
   * (`IsNumber`, `IsUpper`, `IsPunct`, `IsSymbol`, `IsLetter`).  Their
   * tables are data outside this model, so the validator takes them as a
   * parameter.
   */
  datatype UnicodeTables = UnicodeTables(
    isNumber: char -> bool,
    isUpper: char -> bool,
    isPunct: char -> bool,
    isSymbol: char -> bool,
    isLetter: char -> bool)

  /** The text every refusal of a password starts with. */
  const ErrorPrefix := "password validation error: "

  /** The bucket a rune is counted in; `Uncounted` runes add only to the
      length. */
  datatype Class = Numeric | Upper | Special | Lower | Uncounted

  /** The `switch` of the classification loop: the first case that holds
      decides, in the order number, upper case, punctuation or symbol,
      letter or the space character. */
  function Classify(u: UnicodeTables, c: char): Class
  {
    if u.isNumber(c) then Numeric
    else if u.isUpper(c) then Upper
    else if u.isPunct(c) || u.isSymbol(c) then Special
    else if u.isLetter(c) || c == ' ' then Lower
    else Uncounted
  }

  /** The five counters of the loop. */
  datatype Tally = Tally(length: int, numerics: int, upper: int, lower: int, special: int)

  /** One loop iteration: count the rune, then bump its bucket. */
  function Step(t: Tally, k: Class): Tally
  {
    var t := t.(length := t.length + 1);
    match k
    case Numeric => t.(numerics := t.numerics + 1)
    case Upper => t.(upper := t.upper + 1)
    case Special => t.(special := t.special + 1)
    case Lower => t.(lower := t.lower + 1)
    case Uncounted => t
  }

  /** The counters after the loop has run over `s`. */
  function Counts(u: UnicodeTables, s: string): Tally
  {
    if s == [] then Tally(0, 0, 0, 0, 0)
    else Step(Counts(u, s[..|s| - 1]), Classify(u, s[|s| - 1]))
  }

  /** The number of runes of `s` for which `p` holds: an independent,
      one-predicate-at-a-time account of what the loop counts. */
  function Occurrences(s: string, p: char -> bool): nat
  {
    if s == [] then 0
    else Occurrences(s[..|s| - 1], p) + (if p(s[|s| - 1]) then 1 else 0)
  }

  /**
   * What each counter holds: `length` counts every rune; a rune is numeric
   * when it is a number, upper when it is upper case and not a number,
   * special when it is punctuation or a symbol and neither of the former,
   * lower when it is a letter or ' ' and none of the former.
   */
  lemma {:induction false} CountsByCategory(u: UnicodeTables, s: string)
    ensures Counts(u, s).length == |s|
    ensures Counts(u, s).numerics == Occurrences(s, c => u.isNumber(c))
    ensures Counts(u, s).upper == Occurrences(s, c => !u.isNumber(c) && u.isUpper(c))
    ensures Counts(u, s).special
         == Occurrences(s, c => !u.isNumber(c) && !u.isUpper(c) && (u.isPunct(c) || u.isSymbol(c)))
    ensures Counts(u, s).lower
         == Occurrences(s, c => !u.isNumber(c) && !u.isUpper(c) && !(u.isPunct(c) || u.isSymbol(c))
                                && (u.isLetter(c) || c == ' '))
  {
    if s != [] {
      CountsByCategory(u, s[..|s| - 1]);
    }
  }

  /** Every rune lands in at most one bucket: the four bucket counts and the
      runes counted only toward length add up to the length. */
  lemma {:induction false} CountsPartitionLength(u: UnicodeTables, s: string)
    ensures var t := Counts(u, s);
      t.numerics + t.upper + t.special + t.lower + Occurrences(s, c => Classify(u, c) == Uncounted) == t.length
    ensures var t := Counts(u, s);
      0 <= t.numerics && 0 <= t.upper && 0 <= t.special && 0 <= t.lower
      && t.numerics + t.upper + t.special + t.lower <= t.length
  {
    if s != [] {
      CountsPartitionLength(u, s[..|s| - 1]);
    }
  }

  /** A longer password never has smaller counts. */
  lemma {:induction false} CountsGrow(u: UnicodeTables, s: string, extra: string)
    ensures var t, t' := Counts(u, s), Counts(u, s + extra);
      t.length <= t'.length && t.numerics <= t'.numerics && t.upper <= t'.upper
      && t.lower <= t'.lower && t.special <= t'.special
  {
    if extra != [] {
      var e' := extra[..|extra| - 1];
      assert (s + extra)[..|s + extra| - 1] == s + e';
      assert (s + extra)[|s + extra| - 1] == extra[|extra| - 1];
      CountsGrow(u, s, e');
    } else {
      assert s + extra == s;
    }
  }

  /** The five minimums, in the order the errors are reported. */
  datatype Rule = LengthRule | NumericRule | UpperRule | LowerRule | SpecialRule

  const ReportOrder: seq<Rule> := [LengthRule, NumericRule, UpperRule, LowerRule, SpecialRule]

  /** The position of a rule in the report order. */
  function Rank(r: Rule): nat
  {
    match r
    case LengthRule => 0
    case NumericRule => 1
    case UpperRule => 2
    case LowerRule => 3
    case SpecialRule => 4
  }

  /** The counter a rule checks. */
  function Reached(t: Tally, r: Rule): int
  {
    match r
    case LengthRule => t.length
    case NumericRule => t.numerics
    case UpperRule => t.upper
    case LowerRule => t.lower
    case SpecialRule => t.special
  }

  /** `PasswordValidator`: one minimum per counter. */
  datatype PasswordValidator = PasswordValidator(
    minLength: int,
    minNumeric: int,
    minSpecial: int,
    minUpper: int,
    minLower: int)
  {

    /** The minimum a rule requires. */
    function Minimum(r: Rule): int
    {
      match r
      case LengthRule => minLength
      case NumericRule => minNumeric
      case UpperRule => minUpper
      case LowerRule => minLower
      case SpecialRule => minSpecial
    }

    predicate Satisfied(t: Tally, r: Rule)
    {
      Reached(t, r) >= Minimum(r)
    }

    /** Every minimum is met. */
    predicate Meets(t: Tally)
    {
      && Satisfied(t, LengthRule) && Satisfied(t, NumericRule) && Satisfied(t, UpperRule)
      && Satisfied(t, LowerRule) && Satisfied(t, SpecialRule)
    }

    /** The reason reported for an unmet rule (the source's wording,
        misspellings included): its lead, the minimum, and its tail. */
    function ReasonText(r: Rule): string
    {
      Lead(r) + Text.IntToString(Minimum(r)) + Tail(r)
    }

    /** `[r]` when `t` fails `r`, otherwise nothing. */
    function IfUnmet(t: Tally, r: Rule): seq<Rule>
    {
      if Satisfied(t, r) then [] else [r]
    }

    /** The reason for `r` when `t` fails it, otherwise nothing. */
    function ReasonIfUnmet(t: Tally, r: Rule): seq<string>
    {
      if Satisfied(t, r) then [] else [ReasonText(r)]
    }

    /** The rules of `rules` that `t` does not satisfy, in their order. */
    function UnmetAmong(t: Tally, rules: seq<Rule>): seq<Rule>
    {
      if rules == [] then [] else IfUnmet(t, rules[0]) + UnmetAmong(t, rules[1..])
    }

    /** The unmet rules in report order. */
    function Unmet(t: Tally): seq<Rule>
    {
      UnmetAmong(t, ReportOrder)
    }

    /** The reason texts of `rules`, one per rule, in order. */
    function Texts(rules: seq<Rule>): (r: seq<string>)
      ensures |r| == |rules|
    {
      if rules == [] then [] else [ReasonText(rules[0])] + Texts(rules[1..])
    }

    /** The reasons reported for a tally: one per unmet rule. */
    function Reasons(t: Tally): seq<string>
    {
      Texts(Unmet(t))
    }

    /**
     * The outcome of `Validate`: a value that is not a string is refused
     * outright; a string is accepted exactly when it meets every minimum,
     * and otherwise refused with "password validation error: " and its
     * reasons joined by ", ".
     */
    function Verdict(u: UnicodeTables, value: Value): (r: Option<Error>)
      ensures !value.StringValue? ==> r == Some(Failure("input value must be a string"))
      ensures value.StringValue? ==> (r.None? <==> Meets(Counts(u, value.s)))
      ensures value.StringValue? && r.Some? ==>
        r.value == Failure(ErrorPrefix + Text.Join(Reasons(Counts(u, value.s)), ", "))
    {
      match value
      case StringValue(password) =>
        var t := Counts(u, password);
        UnmetExactlyTheFailedRules(t);
        if Reasons(t) == [] then None
        else Some(Failure(ErrorPrefix + Text.Join(Reasons(t), ", ")))
      case _ => Some(Failure("input value must be a string"))
    }

    /** `PasswordValidator.Validate`: the counting loop, then the five
        independent minimum checks. */
    method Validate(u: UnicodeTables, value: Value) returns (err: Option<Error>)
      ensures err == Verdict(u, value)
    {
      if !value.StringValue? {
        return Some(Failure("input value must be a string"));
      }
      var password := value.s;
      var length, numerics, upper, lower, special := CountRunes(u, password);
      var errs := Complaints(length, numerics, upper, lower, special);
      VerdictOfString(u, password);

      if |errs| > 0 {
        return Some(Failure(ErrorPrefix + Text.Join(errs, ", ")));
      }
      return None;
    }

    /** The five independent minimum checks of `Validate`, each adding its
        reason when the count falls short. */
    method Complaints(length: int, numerics: int, upper: int, lower: int, special: int)
      returns (errs: seq<string>)
      ensures errs == Reasons(Tally(length, numerics, upper, lower, special))
    {
      ghost var t := Tally(length, numerics, upper, lower, special);
      errs := [];
      if length < minLength {
        errs := errs + [ReasonText(LengthRule)];
      }
      ghost var afterLength := errs;
      assert afterLength == ReasonIfUnmet(t, LengthRule);
      if numerics < minNumeric {
        errs := errs + [ReasonText(NumericRule)];
      }
      ghost var afterNumeric := errs;
      assert afterNumeric == afterLength + ReasonIfUnmet(t, NumericRule);
      if upper < minUpper {
        errs := errs + [ReasonText(UpperRule)];
      }
      ghost var afterUpper := errs;
      assert afterUpper == afterNumeric + ReasonIfUnmet(t, UpperRule);
      if lower < minLower {
        errs := errs + [ReasonText(LowerRule)];
      }
      ghost var afterLower := errs;
      assert afterLower == afterUpper + ReasonIfUnmet(t, LowerRule);
      if special < minSpecial {
        errs := errs + [ReasonText(SpecialRule)];
      }
      assert errs == afterLower + ReasonIfUnmet(t, SpecialRule);
      ReasonsInOrder(t);
    }

    /** The verdict on a string, in terms of its reasons. */
    lemma VerdictOfString(u: UnicodeTables, password: string)
      ensures Verdict(u, StringValue(password))
           == var reasons := Reasons(Counts(u, password));
              if reasons == [] then None else Some(Failure(ErrorPrefix + Text.Join(reasons, ", ")))
    {
    }

    /** Unfolds the report order: the unmet rules are the length, numeric,
        upper, lower and special rules that fail, in that order. */
    lemma UnmetInOrder(t: Tally)
      ensures Unmet(t)
           == IfUnmet(t, LengthRule) + IfUnmet(t, NumericRule) + IfUnmet(t, UpperRule)
            + IfUnmet(t, LowerRule) + IfUnmet(t, SpecialRule)
    {
      UnmetFromNumeric(t);
      assert ReportOrder[1..] == [NumericRule, UpperRule, LowerRule, SpecialRule];
    }

    lemma UnmetFromNumeric(t: Tally)
      ensures UnmetAmong(t, [NumericRule, UpperRule, LowerRule, SpecialRule])
           == IfUnmet(t, NumericRule) + IfUnmet(t, UpperRule) + IfUnmet(t, LowerRule) + IfUnmet(t, SpecialRule)
    {
      UnmetFromUpper(t);
      assert [NumericRule, UpperRule, LowerRule, SpecialRule][1..] == [UpperRule, LowerRule, SpecialRule];
    }

    lemma UnmetFromUpper(t: Tally)
      ensures UnmetAmong(t, [UpperRule, LowerRule, SpecialRule])
           == IfUnmet(t, UpperRule) + IfUnmet(t, LowerRule) + IfUnmet(t, SpecialRule)
    {
      UnmetFromLower(t);
      assert [UpperRule, LowerRule, SpecialRule][1..] == [LowerRule, SpecialRule];
    }

    lemma UnmetFromLower(t: Tally)
      ensures UnmetAmong(t, [LowerRule, SpecialRule]) == IfUnmet(t, LowerRule) + IfUnmet(t, SpecialRule)
    {
      assert [LowerRule, SpecialRule][1..] == [SpecialRule];
      assert UnmetAmong(t, [SpecialRule]) == IfUnmet(t, SpecialRule) + UnmetAmong(t, []);
    }

    /** The texts of two runs of rules are the texts of each, in order. */
    lemma {:induction false} TextsAppend(a: seq<Rule>, b: seq<Rule>)
      ensures Texts(a + b) == Texts(a) + Texts(b)
    {
      if a != [] {
        assert (a + b)[1..] == a[1..] + b;
        TextsAppend(a[1..], b);
      } else {
        assert a + b == b;
      }
    }

    /** The reasons are those of the failed length, numeric, upper, lower
        and special rules, in that order. */
    lemma ReasonsInOrder(t: Tally)
      ensures Reasons(t)
           == ReasonIfUnmet(t, LengthRule) + ReasonIfUnmet(t, NumericRule) + ReasonIfUnmet(t, UpperRule)
            + ReasonIfUnmet(t, LowerRule) + ReasonIfUnmet(t, SpecialRule)
    {
      UnmetInOrder(t);
      var a, b, c, d, e := IfUnmet(t, LengthRule), IfUnmet(t, NumericRule), IfUnmet(t, UpperRule),
                           IfUnmet(t, LowerRule), IfUnmet(t, SpecialRule);
      TextsAppend(a + b + c + d, e);
      TextsAppend(a + b + c, d);
      TextsAppend(a + b, c);
      TextsAppend(a, b);
      TextOfOne(t, LengthRule);
      TextOfOne(t, NumericRule);
      TextOfOne(t, UpperRule);
      TextOfOne(t, LowerRule);
      TextOfOne(t, SpecialRule);
    }

    lemma TextOfOne(t: Tally, r: Rule)
      ensures Texts(IfUnmet(t, r)) == ReasonIfUnmet(t, r)
    {
    }

    /** A rule is reported exactly when it is not satisfied. */
    lemma {:induction false} UnmetAmongExactly(t: Tally, rules: seq<Rule>, r: Rule)
      ensures r in UnmetAmong(t, rules) <==> r in rules && !Satisfied(t, r)
    {
      if rules != [] {
        UnmetAmongExactly(t, rules[1..], r);
        assert rules == [rules[0]] + rules[1..];
      }
    }

    /** The reported rules are exactly the failed ones; in particular none is
        reported exactly when every minimum is met. */
    lemma UnmetExactlyTheFailedRules(t: Tally)
      ensures forall r :: r in Unmet(t) <==> !Satisfied(t, r)
      ensures Unmet(t) == [] <==> Meets(t)
      ensures Reasons(t) == [] <==> Meets(t)
    {
      forall r ensures r in Unmet(t) <==> !Satisfied(t, r) {
        UnmetAmongExactly(t, ReportOrder, r);
      }
      UnmetInOrder(t);
    }

    /** The reported rules keep the report order (length, numeric, upper,
        lower, special), so no rule is reported twice. */
    lemma ReportedInOrder(t: Tally)
      ensures forall i, j :: 0 <= i < j < |Unmet(t)| ==> Rank(Unmet(t)[i]) < Rank(Unmet(t)[j])
      ensures |Reasons(t)| == |Unmet(t)| <= 5
    {
      UnmetInOrder(t);
    }

    /** Different rules give different reasons, so the reasons name the
        unmet minimums one to one. */
    lemma ReasonTextsDistinct(r1: Rule, r2: Rule)
      requires r1 != r2
      ensures ReasonText(r1) != ReasonText(r2)
    {
      var n1, n2 := Text.IntToString(Minimum(r1)), Text.IntToString(Minimum(r2));
      if r1 == LengthRule || r2 == LengthRule {
        assert ReasonText(r1) == Lead(r1) + (n1 + Tail(r1));
        assert ReasonText(r2) == Lead(r2) + (n2 + Tail(r2));
        LeadsDiffer(r1, n1 + Tail(r1), r2, n2 + Tail(r2));
      } else {
        TailsDiffer(Lead(r1) + n1, r1, Lead(r2) + n2, r2);
      }
    }
  }

  /** The sixth rune of a lead tells the length rule from the others. */
  lemma LeadMark(r: Rule)
    ensures |Lead(r)| > 5 && Lead(r)[5] == (if r == LengthRule then 'b' else 'c')
  {
  }

  /** The eighteenth rune from the end of a "must containt" tail names its
      counter. */
  lemma TailMark(r: Rule)
    requires r != LengthRule
    ensures |Tail(r)| >= 19
    ensures Tail(r)[|Tail(r)| - 18]
         == match r
            case NumericRule => 'n'
            case UpperRule => 'p'
            case LowerRule => 'w'
            case _ => 's'
  {
    match r
    case NumericRule => assert Tail(r)[1] == " numeric characters"[1];
    case UpperRule => assert Tail(r)[3] == " uppercase characters"[3];
    case LowerRule => assert Tail(r)[3] == " lowercase characters"[3];
    case SpecialRule => assert Tail(r)[1] == " sepcial characters"[1];
  }

  /** Texts that start with the length rule's lead and with a counter
      rule's lead differ. */
  lemma LeadsDiffer(r1: Rule, x1: string, r2: Rule, x2: string)
    requires r1 != r2 && (r1 == LengthRule || r2 == LengthRule)
    ensures Lead(r1) + x1 != Lead(r2) + x2
  {
    LeadMark(r1);
    LeadMark(r2);
    DifferentHeads(Lead(r1), x1, Lead(r2), x2, 5);
  }

  /** Two texts ending in the tails of different counters differ. */
  lemma TailsDiffer(p1: string, r1: Rule, p2: string, r2: Rule)
    requires r1 != LengthRule && r2 != LengthRule && r1 != r2
    ensures p1 + Tail(r1) != p2 + Tail(r2)
  {
    TailMark(r1);
    TailMark(r2);
    DifferentTails(p1, Tail(r1), p2, Tail(r2), 18);
  }

  /** The fixed text before the minimum in a reason. */
  function Lead(r: Rule): string
  {
    if r == LengthRule then "must be at least " else "must containt at least "
  }

  /** The fixed text after the minimum in a reason. */
  function Tail(r: Rule): string
  {
    match r
    case LengthRule => " characters"
    case NumericRule => " numeric characters"
    case UpperRule => " uppercase characters"
    case LowerRule => " lowercase characters"
    case SpecialRule => " sepcial characters"
  }

  /** Strings that differ at a position of their heads differ. */
  lemma DifferentHeads(a1: string, x1: string, a2: string, x2: string, i: nat)
    requires i < |a1| && i < |a2| && a1[i] != a2[i]
    ensures a1 + x1 != a2 + x2
  {
    assert (a1 + x1)[i] == a1[i] && (a2 + x2)[i] == a2[i];
  }

  /** Strings that differ at the same distance from their ends differ. */
  lemma DifferentTails(p1: string, s1: string, p2: string, s2: string, k: nat)
    requires 0 < k <= |s1| && k <= |s2| && s1[|s1| - k] != s2[|s2| - k]
    ensures p1 + s1 != p2 + s2
  {
    if |p1 + s1| == |p2 + s2| {
      var n := |p1 + s1| - k;
      assert (p1 + s1)[n] == s1[|s1| - k];
      assert (p2 + s2)[n] == s2[|s2| - k];
    }
  }

  /** `NewPasswordValidator`: the validator built from the configuration
      demands exactly the configured minimums, `MinUpperCase` for upper case
      and `MinLowerCase` for lower case runes. */
  function NewPasswordValidator(c: PasswordConfig): (v: PasswordValidator)
    ensures forall t :: v.Meets(t) <==>
      (t.length >= c.minLength && t.numerics >= c.minNumeric && t.upper >= c.minUpperCase
       && t.lower >= c.minLowerCase && t.special >= c.minSpecial)
  {
    var v := PasswordValidator(
      minLength := c.minLength,
      minNumeric := c.minNumeric,
      minSpecial := c.minSpecial,
      minUpper := c.minUpperCase,
      minLower := c.minLowerCase);
    v
  }

  /** With no minimum configured every value that is a string is accepted,
      the empty password included. */
  lemma ZeroPolicyAcceptsEveryString(u: UnicodeTables, password: string)
    ensures NewPasswordValidator(PasswordConfig(0, 0, 0, 0, 0)).Verdict(u, StringValue(password)) == None
  {
    CountsPartitionLength(u, password);
  }

  /** Only minimums are checked: appending runes to an accepted password
      never makes it rejected. */
  lemma ExtensionKeepsAcceptance(v: PasswordValidator, u: UnicodeTables, password: string, extra: string)
    requires v.Verdict(u, StringValue(password)) == None
    ensures v.Verdict(u, StringValue(password + extra)) == None
  {
    assert v.Meets(Counts(u, password));
    CountsGrow(u, password, extra);
    assert v.Meets(Counts(u, password + extra));
  }

  /** Go's punctuation among the ASCII runes. */
  predicate IsAsciiPunct(c: char)
  {
    c == '!' || c == '"' || c == '#' || c == '%' || c == '&' || c == '\'' || c == '(' || c == ')'
    || c == '*' || c == ',' || c == '-' || c == '.' || c == '/' || c == ':' || c == ';' || c == '?'
    || c == '@' || c == '[' || c == '\\' || c == ']' || c == '_' || c == '{' || c == '}'
  }

  /** Go's symbols among the ASCII runes. */
  predicate IsAsciiSymbol(c: char)
  {
    c == '$' || c == '+' || c == '<' || c == '=' || c == '>' || c == '^' || c == '`' || c == '|' || c == '~'
  }

  /** Go's classification of ASCII runes: the digits are the numbers,
      'A'..'Z' the upper case letters, 'A'..'Z' and 'a'..'z' the letters,
      and the remaining printable runes other than ' ' punctuation or
      symbols. */
  ghost predicate ClassifiesAsciiLikeGo(u: UnicodeTables)
  {
    && (forall c: char :: c < '\U{0080}' ==> u.isNumber(c) == ('0' <= c <= '9'))
    && (forall c: char :: c < '\U{0080}' ==> u.isUpper(c) == ('A' <= c <= 'Z'))
    && (forall c: char :: c < '\U{0080}' ==> u.isLetter(c) == (('A' <= c <= 'Z') || ('a' <= c <= 'z')))
    && (forall c: char :: c < '\U{0080}' ==> u.isPunct(c) == IsAsciiPunct(c))
    && (forall c: char :: c < '\U{0080}' ==> u.isSymbol(c) == IsAsciiSymbol(c))
  }

  /** The policy of the examples: at least 8 runes, one number, one upper
      case rune and one special rune. */
  const ExamplePolicy := PasswordValidator(minLength := 8, minNumeric := 1, minSpecial := 1, minUpper := 1, minLower := 0)

  /** Under the example policy "pAssw@rd5" is accepted. */
  lemma StrongPasswordAccepted(u: UnicodeTables)
    requires ClassifiesAsciiLikeGo(u)
    ensures ExamplePolicy.Verdict(u, StringValue("pAssw@rd5")) == None
  {
    ExampleCounts(u);
  }

  /** Under the example policy "pAssword5" is refused for its missing
      special rune alone. */
  lemma PasswordWithoutSpecialRefused(u: UnicodeTables)
    requires ClassifiesAsciiLikeGo(u)
    ensures ExamplePolicy.Verdict(u, StringValue("pAssword5"))
         == Some(Failure(ErrorPrefix + "must containt at least 1 sepcial characters"))
  {
    var reason := "must containt at least 1 sepcial characters";
    var r := ExamplePolicy.Verdict(u, StringValue("pAssword5"));
    assert r.Some? by {
      ExampleCounts(u);
    }
    assert r.value == Failure(ErrorPrefix + Text.Join([reason], ", ")) by {
      ExampleCounts(u);
      ExampleReasons();
    }
    assert Text.Join([reason], ", ") == reason;
  }

  /** The counts of "pAssword5" fall short of the example policy in the
      special rune alone. */
  lemma ExampleReasons()
    ensures ExamplePolicy.Reasons(Tally(9, 1, 1, 7, 0)) == ["must containt at least 1 sepcial characters"]
  {
    var bad := Tally(9, 1, 1, 7, 0);
    assert ExamplePolicy.Reasons(bad) == [ExamplePolicy.ReasonText(SpecialRule)] by {
      ExamplePolicy.ReasonsInOrder(bad);
    }
    ExampleSpecialReason();
  }

  /** The example policy's reason for a missing special rune. */
  lemma ExampleSpecialReason()
    ensures ExamplePolicy.ReasonText(SpecialRule) == "must containt at least 1 sepcial characters"
  {
    assert Text.IntToString(1) == "1" by {
      assert Text.NatToString(1) == [Text.Digit(1)];
    }
    assert "must containt at least " + "1" + " sepcial characters"
        == "must containt at least 1 sepcial characters";
  }

  /** The runes of the two example passwords, classified. */
  lemma ExampleClasses(u: UnicodeTables)
    requires ClassifiesAsciiLikeGo(u)
    ensures Classify(u, 'p') == Lower && Classify(u, 's') == Lower && Classify(u, 'w') == Lower
      && Classify(u, 'r') == Lower && Classify(u, 'd') == Lower && Classify(u, 'o') == Lower
    ensures Classify(u, 'A') == Upper && Classify(u, '@') == Special && Classify(u, '5') == Numeric
  {
  }

  /** The counts of the two example passwords. */
  lemma ExampleCounts(u: UnicodeTables)
    requires ClassifiesAsciiLikeGo(u)
    ensures Counts(u, "pAssw@rd5") == Tally(9, 1, 1, 6, 1)
    ensures Counts(u, "pAssword5") == Tally(9, 1, 1, 7, 0)
  {
    ExampleClasses(u);
    var stem := "pAssw";
    assert Counts(u, stem) == Tally(5, 0, 1, 4, 0) by {
      assert "pAss" + ['w'] == "pAssw";
      CountsSnoc(u, "pAss", 'w');
      assert "pAs" + ['s'] == "pAss";
      CountsSnoc(u, "pAs", 's');
      assert "pA" + ['s'] == "pAs";
      CountsSnoc(u, "pA", 's');
      assert "p" + ['A'] == "pA";
      CountsSnoc(u, "p", 'A');
      assert "" + ['p'] == "p";
      CountsSnoc(u, "", 'p');
    }
    assert Counts(u, "pAssw@rd5") == Tally(9, 1, 1, 6, 1) by {
      assert "pAssw@rd" + ['5'] == "pAssw@rd5";
      CountsSnoc(u, "pAssw@rd", '5');
      assert "pAssw@r" + ['d'] == "pAssw@rd";
      CountsSnoc(u, "pAssw@r", 'd');
      assert "pAssw@" + ['r'] == "pAssw@r";
      CountsSnoc(u, "pAssw@", 'r');
      assert stem + ['@'] == "pAssw@";
      CountsSnoc(u, stem, '@');
    }
    assert Counts(u, "pAssword5") == Tally(9, 1, 1, 7, 0) by {
      assert "pAssword" + ['5'] == "pAssword5";
      CountsSnoc(u, "pAssword", '5');
      assert "pAsswor" + ['d'] == "pAssword";
      CountsSnoc(u, "pAsswor", 'd');
      assert "pAsswo" + ['r'] == "pAsswor";
      CountsSnoc(u, "pAsswo", 'r');
      assert stem + ['o'] == "pAsswo";
      CountsSnoc(u, stem, 'o');
    }
  }

  /** The loop of `Validate` that visits each rune once, counting it and
      the bucket it falls in. */
  method CountRunes(u: UnicodeTables, password: string)
    returns (length: int, numerics: int, upper: int, lower: int, special: int)
    ensures Tally(length, numerics, upper, lower, special) == Counts(u, password)
  {
    length, numerics, upper, lower, special := 0, 0, 0, 0, 0;
    for i := 0 to |password|
      invariant Tally(length, numerics, upper, lower, special) == Counts(u, password[..i])
    {
      var c := password[i];
      assert Counts(u, password[..i + 1]) == Step(Counts(u, password[..i]), Classify(u, c)) by {
        assert password[..i + 1][..i] == password[..i];
      }
      length := length + 1;
      if u.isNumber(c) {
        numerics := numerics + 1;
      } else if u.isUpper(c) {
        upper := upper + 1;
      } else if u.isPunct(c) || u.isSymbol(c) {
        special := special + 1;
      } else if u.isLetter(c) || c == ' ' {
        lower := lower + 1;
      }
    }
    assert password[..|password|] == password;
  }

  /** Counting one more rune. */
  lemma CountsSnoc(u: UnicodeTables, s: string, c: char)
    ensures Counts(u, s + [c]) == Step(Counts(u, s), Classify(u, c))
  {
    assert (s + [c])[..|s|] == s;
  }

}
