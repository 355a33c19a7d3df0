/**
 * Timestamp recognition (isValidDatetime and convertToDatetime in docs/main.js).
 *
 * The regular expression ^\d{1,2}\/\d{1,2}\/\d{4} \d{1,2}:\d{2}:\d{2}$ is a chain of digit
 * runs separated by single literal characters. Matches reads every digit run to its end;
 * because each run is followed by a literal that is not a digit, or by the end of the text,
 * that is the only way the regular expression can match (lemmas MatchesSound and
 * MatchesComplete).
 */
module Datetime {
  import opened Text

  /** One element of a regular expression made of digit runs \d{lo,hi} and literal characters. */
  datatype Token = Digits(lo: nat, hi: nat) | Literal(c: char)

  /** The bounds {lo,hi} of one digit run. */
  datatype Run = Run(lo: nat, hi: nat)

  /** The pattern run0 lit0 run1 lit1 ... runN: digit runs separated by one literal each. */
  function Delimit(runs: seq<Run>, lits: string): (p: seq<Token>)
    requires |runs| == |lits| + 1
    decreases |lits|
  {
    if lits == [] then [Digits(runs[0].lo, runs[0].hi)]
    else [Digits(runs[0].lo, runs[0].hi), Literal(lits[0])] + Delimit(runs[1..], lits[1..])
  }

  /** The digit runs of the timestamp: \d{1,2} \d{1,2} \d{4} \d{1,2} \d{2} \d{2}. */
  const DatetimeRuns: seq<Run> := [Run(1, 2), Run(1, 2), Run(4, 4), Run(1, 2), Run(2, 2), Run(2, 2)]

  /** The literals between them: / / space : : */
  const DatetimeLiterals: string := "// ::"

  /** ^\d{1,2}\/\d{1,2}\/\d{4} \d{1,2}:\d{2}:\d{2}$ */
  const DatetimePattern: seq<Token> := Delimit(DatetimeRuns, DatetimeLiterals)

  /** The characters convertToDatetime splits on: the character class [\/ :]. */
  const DateSeparators: set<char> := {'/', ' ', ':'}

  /** The arguments of the Date constructor: year, month index, day, hours, minutes, seconds. */
  datatype DateArgs = DateArgs(year: int, monthIndex: int, day: int, hours: int, minutes: int, seconds: int)

  /** The length of the run of digits at the front of s. */
  function LeadingDigits(s: string): (n: nat)
    ensures n <= |s| && AllDigits(s[..n])
    ensures n < |s| ==> !IsDigit(s[n])
  {
    if s == [] || !IsDigit(s[0]) then 0
    else
      var n := 1 + LeadingDigits(s[1..]);
      assert forall j :: 1 <= j < n ==> s[..n][j] == s[1..][..n - 1][j - 1];
      n
  }

  /** Anchored match of the whole of s against p, reading each digit run to its end. */
  predicate Matches(s: string, p: seq<Token>)
    decreases |p|
  {
    if p == [] then s == []
    else
      match p[0]
      case Literal(c) => s != [] && s[0] == c && Matches(s[1..], p[1..])
      case Digits(lo, hi) =>
        var n := LeadingDigits(s);
        lo <= n <= hi && Matches(s[n..], p[1..])
  }

  /** isValidDatetime: the text matches the timestamp regular expression. */
  predicate IsValidDatetime(s: string)
  {
    Matches(s, DatetimePattern)
  }

  /** The digit runs that a successful match read, in order. */
  function Groups(s: string, p: seq<Token>): seq<string>
    requires Matches(s, p)
    decreases |p|
  {
    if p == [] then []
    else
      match p[0]
      case Literal(_) => Groups(s[1..], p[1..])
      case Digits(_, _) =>
        var n := LeadingDigits(s);
        [s[..n]] + Groups(s[n..], p[1..])
  }

  /** groups holds one all-digit string per run, of a length the run allows. */
  predicate FitsRuns(groups: seq<string>, runs: seq<Run>)
  {
    |groups| == |runs| &&
    forall k :: 0 <= k < |runs| ==> AllDigits(groups[k]) && runs[k].lo <= |groups[k]| <= runs[k].hi
  }

  /** The groups with the literals between them: groups[0] lits[0] groups[1] lits[1] ... */
  function Joined(groups: seq<string>, lits: string): string
    requires |groups| == |lits| + 1
    decreases |lits|
  {
    if lits == [] then groups[0] else groups[0] + [lits[0]] + Joined(groups[1..], lits[1..])
  }

  predicate NoDigits(lits: string) { forall i :: 0 <= i < |lits| ==> !IsDigit(lits[i]) }

  /** The digit run at the front of g + rest is g itself when rest does not start with a digit. */
  lemma {:induction false} LeadingDigitsConcat(g: string, rest: string)
    requires AllDigits(g) && (rest == [] || !IsDigit(rest[0]))
    ensures LeadingDigits(g + rest) == |g|
    decreases |g|
  {
    if g != [] {
      assert (g + rest)[1..] == g[1..] + rest;
      LeadingDigitsConcat(g[1..], rest);
    }
  }

  /** One step of Delimit: a run, a literal, and the rest of the pattern. */
  lemma DelimitStep(runs: seq<Run>, lits: string)
    requires |runs| == |lits| + 1 && lits != []
    ensures Delimit(runs, lits)[0] == Digits(runs[0].lo, runs[0].hi)
    ensures Delimit(runs, lits)[1..][0] == Literal(lits[0])
    ensures Delimit(runs, lits)[1..][1..] == Delimit(runs[1..], lits[1..])
  {
  }

  /** Groups fit the runs exactly when the first fits the first run and the others fit the others. */
  lemma FitsRunsCons(groups: seq<string>, runs: seq<Run>)
    requires |groups| >= 1 && |runs| >= 1
    ensures FitsRuns(groups, runs) <==>
      AllDigits(groups[0]) && runs[0].lo <= |groups[0]| <= runs[0].hi && FitsRuns(groups[1..], runs[1..])
  {
    if AllDigits(groups[0]) && runs[0].lo <= |groups[0]| <= runs[0].hi && FitsRuns(groups[1..], runs[1..]) {
      forall k | 1 <= k < |runs| ensures AllDigits(groups[k]) && runs[k].lo <= |groups[k]| <= runs[k].hi {
        assert groups[k] == groups[1..][k - 1] && runs[k] == runs[1..][k - 1];
      }
    }
    if FitsRuns(groups, runs) {
      forall k | 0 <= k < |runs[1..]|
        ensures AllDigits(groups[1..][k]) && runs[1..][k].lo <= |groups[1..][k]| <= runs[1..][k].hi
      {
        assert groups[1..][k] == groups[k + 1] && runs[1..][k] == runs[k + 1];
      }
    }
  }

  /** One step of a match against Delimit: a digit run, then the literal, then the rest of the pattern. */
  lemma MatchStep(s: string, runs: seq<Run>, lits: string) returns (n: nat)
    requires |runs| == |lits| + 1 && lits != [] && Matches(s, Delimit(runs, lits))
    ensures n == LeadingDigits(s)
    ensures runs[0].lo <= n <= runs[0].hi && n < |s| && s[n] == lits[0]
    ensures Matches(s[n + 1..], Delimit(runs[1..], lits[1..]))
    ensures Groups(s, Delimit(runs, lits)) == [s[..n]] + Groups(s[n + 1..], Delimit(runs[1..], lits[1..]))
  {
    var p := Delimit(runs, lits);
    DelimitStep(runs, lits);
    n := LeadingDigits(s);
    var t := s[n..];
    assert Matches(t, p[1..]);
    assert t[1..] == s[n + 1..];
    assert Groups(t, p[1..]) == Groups(t[1..], p[1..][1..]);
  }

  /** The last step of a match: the whole rest is the one digit run read. */
  lemma MatchLast(s: string, lo: nat, hi: nat)
    requires Matches(s, [Digits(lo, hi)])
    ensures Groups(s, [Digits(lo, hi)]) == [s]
  {
    var n := LeadingDigits(s);
    assert [Digits(lo, hi)][1..] == [];
    assert s[n..] == [] && s[..n] == s;
  }

  /** The last digit run of a match has a length its bounds allow. */
  lemma MatchLastFits(s: string, lo: nat, hi: nat)
    requires Matches(s, [Digits(lo, hi)])
    ensures AllDigits(s) && lo <= |s| <= hi
  {
    var n := LeadingDigits(s);
    assert [Digits(lo, hi)][1..] == [];
    assert s[n..] == [] && s[..n] == s;
  }

  /** Text is what comes before position n, the character at n, and what comes after. */
  lemma CutAt(s: string, n: nat)
    requires n < |s|
    ensures s == s[..n] + [s[n]] + s[n + 1..]
  {
  }

  /** The groups the matcher read fit the runs of the pattern. */
  lemma {:induction false} MatchesFit(s: string, runs: seq<Run>, lits: string)
    requires |runs| == |lits| + 1 && Matches(s, Delimit(runs, lits))
    ensures FitsRuns(Groups(s, Delimit(runs, lits)), runs)
    decreases |lits|
  {
    var g := Groups(s, Delimit(runs, lits));
    if lits == [] {
      assert Delimit(runs, lits) == [Digits(runs[0].lo, runs[0].hi)];
      MatchLast(s, runs[0].lo, runs[0].hi);
      MatchLastFits(s, runs[0].lo, runs[0].hi);
    } else {
      var n := MatchStep(s, runs, lits);
      MatchesFit(s[n + 1..], runs[1..], lits[1..]);
      FitsRunsCons(g, runs);
    }
  }

  /** Whatever the matcher accepts is the groups it read joined by the literals. */
  lemma {:induction false} MatchesJoined(s: string, runs: seq<Run>, lits: string)
    requires |runs| == |lits| + 1 && Matches(s, Delimit(runs, lits))
    requires FitsRuns(Groups(s, Delimit(runs, lits)), runs)
    ensures Joined(Groups(s, Delimit(runs, lits)), lits) == s
    decreases |lits|
  {
    var g := Groups(s, Delimit(runs, lits));
    if lits == [] {
      assert Delimit(runs, lits) == [Digits(runs[0].lo, runs[0].hi)];
      MatchLast(s, runs[0].lo, runs[0].hi);
    } else {
      var n := MatchStep(s, runs, lits);
      var t := s[n + 1..];
      FitsRunsCons(g, runs);
      MatchesJoined(t, runs[1..], lits[1..]);
      assert g[1..] == Groups(t, Delimit(runs[1..], lits[1..]));
      CutAt(s, n);
    }
  }

  /** Whatever the matcher accepts is the groups it read joined by the literals, and they fit the runs. */
  lemma MatchesSound(s: string, runs: seq<Run>, lits: string)
    requires |runs| == |lits| + 1 && Matches(s, Delimit(runs, lits))
    ensures FitsRuns(Groups(s, Delimit(runs, lits)), runs)
    ensures Joined(Groups(s, Delimit(runs, lits)), lits) == s
  {
    MatchesFit(s, runs, lits);
    MatchesJoined(s, runs, lits);
  }

  /** A digit run of an allowed length is accepted by a pattern of that one run, and read whole. */
  lemma CompleteLast(g: string, lo: nat, hi: nat)
    requires AllDigits(g) && lo <= |g| <= hi
    ensures Matches(g, [Digits(lo, hi)]) && Groups(g, [Digits(lo, hi)]) == [g]
  {
    LeadingDigitsConcat(g, []);
    assert g + [] == g;
    assert [Digits(lo, hi)][1..] == [];
    assert g[|g|..] == [] && g[..|g|] == g;
  }

  /** A digit run, a literal that is not a digit, and text the rest of the pattern accepts, are accepted together. */
  lemma CompleteStep(g: string, c: char, rest: string, lo: nat, hi: nat, p: seq<Token>)
    requires AllDigits(g) && lo <= |g| <= hi && !IsDigit(c) && Matches(rest, p)
    ensures Matches(g + [c] + rest, [Digits(lo, hi), Literal(c)] + p)
    ensures Groups(g + [c] + rest, [Digits(lo, hi), Literal(c)] + p) == [g] + Groups(rest, p)
  {
    var s := g + [c] + rest;
    var q := [Digits(lo, hi), Literal(c)] + p;
    var t := [c] + rest;
    assert s == g + t;
    LeadingDigitsConcat(g, t);
    assert s[..|g|] == g && s[|g|..] == t && t[1..] == rest;
    assert q[1..][1..] == p;
  }

  lemma NoDigitsTail(lits: string)
    requires NoDigits(lits) && lits != []
    ensures NoDigits(lits[1..]) && !IsDigit(lits[0])
  {
    forall i | 0 <= i < |lits[1..]| ensures !IsDigit(lits[1..][i]) {
      assert lits[1..][i] == lits[i + 1];
    }
  }

  /** Every joining of groups that fit the runs is accepted, and the match reads back the same groups. */
  lemma {:induction false} MatchesComplete(groups: seq<string>, runs: seq<Run>, lits: string)
    requires |runs| == |lits| + 1 && FitsRuns(groups, runs) && NoDigits(lits)
    ensures Matches(Joined(groups, lits), Delimit(runs, lits))
    ensures Groups(Joined(groups, lits), Delimit(runs, lits)) == groups
    decreases |lits|
  {
    FitsRunsCons(groups, runs);
    if lits == [] {
      CompleteLast(groups[0], runs[0].lo, runs[0].hi);
      assert groups == [groups[0]];
    } else {
      NoDigitsTail(lits);
      MatchesComplete(groups[1..], runs[1..], lits[1..]);
      CompleteStep(groups[0], lits[0], Joined(groups[1..], lits[1..]), runs[0].lo, runs[0].hi, Delimit(runs[1..], lits[1..]));
      assert groups == [groups[0]] + groups[1..];
    }
  }

  lemma DatetimeLiteralsAreNotDigits()
    ensures NoDigits(DatetimeLiterals)
  {
  }

  /** isValidDatetime accepts exactly the six fitting digit runs joined as D/M/Y H:M:S. */
  lemma DatetimeExactly(s: string)
    ensures IsValidDatetime(s) <==>
      exists groups :: FitsRuns(groups, DatetimeRuns) && Joined(groups, DatetimeLiterals) == s
  {
    if IsValidDatetime(s) {
      MatchesSound(s, DatetimeRuns, DatetimeLiterals);
      var groups := Groups(s, DatetimePattern);
      assert FitsRuns(groups, DatetimeRuns) && Joined(groups, DatetimeLiterals) == s;
    }
    if exists groups :: FitsRuns(groups, DatetimeRuns) && Joined(groups, DatetimeLiterals) == s {
      var groups :| FitsRuns(groups, DatetimeRuns) && Joined(groups, DatetimeLiterals) == s;
      DatetimeLiteralsAreNotDigits();
      MatchesComplete(groups, DatetimeRuns, DatetimeLiterals);
    }
  }

  /** Splitting text built by Joined, on a set holding every literal and no character of a group, gives back the groups. */
  lemma {:induction false} SplitJoined(groups: seq<string>, lits: string, seps: set<char>)
    requires |groups| == |lits| + 1
    requires forall k :: 0 <= k < |groups| ==> NoneIn(groups[k], seps)
    requires forall i :: 0 <= i < |lits| ==> lits[i] in seps
    ensures Split(Joined(groups, lits), seps) == groups
    decreases |lits|
  {
    if lits == [] {
      SplitNone(groups[0], seps);
      assert groups == [groups[0]];
    } else {
      assert forall k :: 0 <= k < |groups[1..]| ==> groups[1..][k] == groups[k + 1];
      assert forall i :: 0 <= i < |lits[1..]| ==> lits[1..][i] == lits[i + 1];
      SplitJoined(groups[1..], lits[1..], seps);
      SplitCons(groups[0], lits[0], Joined(groups[1..], lits[1..]), seps);
      assert [groups[0]] + groups[1..] == groups;
    }
  }

  /** Splitting a valid timestamp on [\/ :] yields exactly the six digit runs of the match. */
  lemma SplitDatetime(s: string)
    requires IsValidDatetime(s)
    ensures Split(s, DateSeparators) == Groups(s, DatetimePattern)
    ensures FitsRuns(Groups(s, DatetimePattern), DatetimeRuns)
  {
    var g := Groups(s, DatetimePattern);
    MatchesSound(s, DatetimeRuns, DatetimeLiterals);
    forall k | 0 <= k < |g| ensures NoneIn(g[k], DateSeparators) {
      assert AllDigits(g[k]);
    }
    SplitJoined(g, DatetimeLiterals, DateSeparators);
  }

  /** A field of one or two digits is below 100, one of four digits below 10000. */
  lemma FieldBounds(g: seq<string>)
    requires FitsRuns(g, DatetimeRuns)
    ensures DecimalValue(g[0]) < 100 && DecimalValue(g[1]) < 100 && DecimalValue(g[2]) < 10000
    ensures DecimalValue(g[3]) < 100 && DecimalValue(g[4]) < 100 && DecimalValue(g[5]) < 100
  {
    assert Pow10(1) == 10 && Pow10(2) == 100;
    assert Pow10(4) == 10000 by { assert Pow10(3) == 1000; }
    assert forall k :: 0 <= k < 6 ==> |g[k]| <= 4 && (k != 2 ==> |g[k]| <= 2);
  }

  /**
   * The arguments convertToDatetime hands to the Date constructor: the split fields read as
   * numbers, in the order day, month, year, hour, minute, second, with one taken off the month.
   * Nothing is range-checked: a day up to 99, a month up to 99 and minutes or seconds up to 99 pass.
   */
  function DateArgsOf(s: string): (args: DateArgs)
    requires IsValidDatetime(s)
    ensures 0 <= args.day < 100 && -1 <= args.monthIndex < 99 && 0 <= args.year < 10000
    ensures 0 <= args.hours < 100 && 0 <= args.minutes < 100 && 0 <= args.seconds < 100
  {
    SplitDatetime(s);
    var f := Split(s, DateSeparators);
    FieldBounds(f);
    DateArgs(DecimalValue(f[2]), DecimalValue(f[1]) - 1, DecimalValue(f[0]),
             DecimalValue(f[3]), DecimalValue(f[4]), DecimalValue(f[5]))
  }

  /** convertToDatetime: the timestamp the Date constructor builds from the six fields. */
  function ConvertToDatetime(s: string, newDate: DateArgs -> int): int
    requires IsValidDatetime(s)
  {
    newDate(DateArgsOf(s))
  }

  /** Every D/M/YYYY H:MM:SS text is accepted, and its fields reach the Date constructor day first, month less one. */
  lemma DateArgsOfJoined(groups: seq<string>)
    requires FitsRuns(groups, DatetimeRuns)
    ensures IsValidDatetime(Joined(groups, DatetimeLiterals))
    ensures DateArgsOf(Joined(groups, DatetimeLiterals)) ==
      DateArgs(DecimalValue(groups[2]), DecimalValue(groups[1]) - 1, DecimalValue(groups[0]),
               DecimalValue(groups[3]), DecimalValue(groups[4]), DecimalValue(groups[5]))
  {
    var s := Joined(groups, DatetimeLiterals);
    DatetimeLiteralsAreNotDigits();
    MatchesComplete(groups, DatetimeRuns, DatetimeLiterals);
    SplitDatetime(s);
  }
}
