/**
 * The two glob-to-regex translators: glob_to_regex of utilities.cpp (the
 * current one) and glob2regex of helper.cpp (the older one).  Both walk a
 * C-string cursor through the glob and append to the regex; they share the
 * term/group structure and differ in how they translate wildcards, sets
 * and escaped literals, so one translation is given with the dialect as a
 * parameter.
 */
module Glob {
  import opened Wrappers
  import opened Text

  datatype Dialect = Current | Legacy

  /** What a translation step appends, and where it leaves the cursor. */
  datatype Emitted = Emitted(out: string, pos: int)

  /** std::to_string of an unsigned count. */
  function NatToString(n: nat): (r: string)
    ensures |r| >= 1
    ensures forall i | 0 <= i < |r| :: '0' <= r[i] <= '9'
  {
    if n < 10 then ["0123456789"[n]] else NatToString(n / 10) + ["0123456789"[n % 10]]
  }

  predicate InGlob(g: string, p: int)
  {
    0 <= p <= |g|
  }

  // -------------------------------------------------------------- wildcard

  /** The cursor after the '*' characters at p. */
  function StarsEnd(g: string, p: int): (r: int)
    requires InGlob(g, p)
    ensures p <= r <= |g| && At(g, r) != '*'
    ensures forall k | p <= k < r :: At(g, k) == '*'
    decreases |g| - p
  {
    if At(g, p) == '*' then StarsEnd(g, p + 1) else p
  }

  /** A run of '?' and '*': how many '?', whether a '*' occurs, and where the run ends. */
  datatype Run = Run(min: nat, noMax: bool, end: int)

  /** The current translator's run: every '?' and '*' that follows. */
  function WildRun(g: string, p: int): (r: Run)
    requires InGlob(g, p)
    ensures p <= r.end <= |g| && At(g, r.end) != '?' && At(g, r.end) != '*'
    decreases |g| - p
  {
    if At(g, p) == '?' then
      var r := WildRun(g, p + 1); Run(r.min + 1, r.noMax, r.end)
    else if At(g, p) == '*' then
      var r := WildRun(g, p + 1); Run(r.min, true, r.end)
    else Run(0, false, p)
  }

  /** The older translator's run: it also stops in front of a "**". */
  function LegacyWildRun(g: string, p: int): (r: Run)
    requires InGlob(g, p)
    ensures p <= r.end <= |g|
    ensures At(g, p) == '?' || (At(g, p) == '*' && At(g, p + 1) != '*') ==> p < r.end
    decreases |g| - p
  {
    if At(g, p) == '?' then
      var r := LegacyWildRun(g, p + 1); Run(r.min + 1, r.noMax, r.end)
    else if At(g, p) == '*' && At(g, p + 1) != '*' then
      var r := LegacyWildRun(g, p + 1); Run(r.min, true, r.end)
    else Run(0, false, p)
  }

  /** The quantifier appended after the wildcard's character class. */
  function Quantifier(d: Dialect, min: nat, noMax: bool): string
  {
    match d
    case Current =>
      if min > 1 then "{" + NatToString(min) + (if noMax then "," else "") + "}"
      else if min == 1 && noMax then "+"
      else ""
    case Legacy =>
      if min == 0 then "*"
      else if min == 1 then (if noMax then "+" else "")
      else "{" + NatToString(min) + (if noMax then "," else "") + "}"
  }

  /** The wildcard lambda. */
  function Wildcard(g: string, p: int, d: Dialect): (r: Emitted)
    requires InGlob(g, p) && (At(g, p) == '?' || At(g, p) == '*')
    ensures p < r.pos <= |g|
  {
    if At(g, p) == '*' && At(g, p + 1) == '*' then
      var e := StarsEnd(g, p + 2);
      Emitted((if d == Current then ".*" else ".") + Quantifier(d, 0, false), e)
    else if d == Current then
      var r := WildRun(g, p);
      Emitted("[^/]*" + Quantifier(d, r.min, r.noMax), r.end)
    else
      var r := LegacyWildRun(g, p);
      Emitted("[^/]" + Quantifier(d, r.min, r.noMax), r.end)
  }

  // ------------------------------------------------------------------- set

  /** The members of a set in the current translator, up to its closing ']' or the end. */
  function SetBody(g: string, p: int): (r: Emitted)
    requires InGlob(g, p)
    ensures p <= r.pos <= |g| && (At(g, r.pos) == '\0' || At(g, r.pos) == ']')
    decreases |g| - p
  {
    if At(g, p) == '\0' || At(g, p) == ']' then Emitted("", p)
    else
      var step := SetMember(g, p);
      var rest := SetBody(g, step.pos);
      Emitted(step.out + rest.out, rest.pos)
  }

  /** One member of a set in the current translator: a range dash, an escape pair or a character. */
  function SetMember(g: string, p: int): (r: Emitted)
    requires InGlob(g, p) && At(g, p) != '\0'
    ensures p < r.pos <= |g|
  {
    if At(g, p) == '-' && At(g, p + 1) != ']' then Emitted("-", p + 1)
    else if At(g, p) == '\\' && At(g, p + 1) != '\0' then Emitted(['\\', At(g, p + 1)], p + 2)
    else Emitted([At(g, p)], p + 1)
  }

  /** The loop state after one more member. */
  lemma SetBodyStep(g: string, p: int, q: int, regex: string, regex': string)
    requires InGlob(g, p) && InGlob(g, q) && At(g, q) != '\0' && At(g, q) != ']'
    requires regex + SetBody(g, p).out == regex' + SetBody(g, q).out
    ensures var m := SetMember(g, q);
      regex + SetBody(g, p).out == (regex' + m.out) + SetBody(g, m.pos).out &&
      SetBody(g, q).pos == SetBody(g, m.pos).pos
  {
    var m := SetMember(g, q);
    assert SetBody(g, q).out == m.out + SetBody(g, m.pos).out;
  }

  /** The members of a set in the older translator, through its closing ']' if there is one. */
  function LegacySetBody(g: string, p: int): (r: Emitted)
    requires InGlob(g, p)
    ensures p <= r.pos <= |g|
    decreases |g| - p
  {
    var c := At(g, p);
    if c == '\0' then Emitted("", p)
    else if c == ']' then Emitted("", p + 1)
    else
      var step := LegacyMember(g, p);
      var rest := LegacySetBody(g, step.pos);
      Emitted(step.out + rest.out, rest.pos)
  }

  /** One member of a set in the older translator: '-' as is, an escaped or plain character quoted if special. */
  function LegacyMember(g: string, p: int): (r: Emitted)
    requires InGlob(g, p) && At(g, p) != '\0'
    ensures p < r.pos <= |g|
  {
    var c := At(g, p);
    if c == '-' then Emitted("-", p + 1)
    else
      var (c2, q) := if c == '\\' && At(g, p + 1) != '\0' then (At(g, p + 1), p + 2) else (c, p + 1);
      Emitted((if c2 == ']' || c2 == '\\' || c2 == '-' then "\\" else "") + [c2], q)
  }

  /** The loop state after one more member. */
  lemma LegacySetBodyStep(g: string, p: int, q: int, regex: string, regex': string)
    requires InGlob(g, p) && InGlob(g, q) && At(g, q) != '\0' && At(g, q) != ']'
    requires regex + LegacySetBody(g, p).out == regex' + LegacySetBody(g, q).out
    ensures var m := LegacyMember(g, q);
      regex + LegacySetBody(g, p).out == (regex' + m.out) + LegacySetBody(g, m.pos).out &&
      LegacySetBody(g, q).pos == LegacySetBody(g, m.pos).pos
  {
    var m := LegacyMember(g, q);
    assert LegacySetBody(g, q).out == m.out + LegacySetBody(g, m.pos).out;
  }

  /** The set lambda. */
  function Set(g: string, p: int, d: Dialect): (r: Emitted)
    requires InGlob(g, p) && At(g, p) == '['
    ensures p < r.pos <= |g|
  {
    var negated := At(g, p + 1) == '^' || At(g, p + 1) == '!';
    var open := if negated then "[^" else "[";
    var q := if negated then p + 2 else p + 1;
    if d == Current then
      var b := SetBody(g, q);
      if At(g, b.pos) == ']' then Emitted(open + b.out + "]", b.pos + 1)
      else Emitted(open + b.out, b.pos)
    else
      var b := LegacySetBody(g, q);
      Emitted(open + b.out + "]", b.pos)
  }

  // --------------------------------------------------------- terms, groups

  const SPECIALS := "$^+*?.=!|\\()[]{}"

  /** One literal character, with its escape. */
  function Literal(g: string, p: int, d: Dialect): (r: Emitted)
    requires InGlob(g, p) && At(g, p) != '\0'
    ensures p < r.pos <= |g|
  {
    var escaped := At(g, p) == '\\' && At(g, p + 1) != '\0';
    var q := if escaped then p + 1 else p;
    var c := At(g, q);
    Emitted((if escaped && d == Current then "\\" else "") + (if c in SPECIALS then "\\" else "") + [c], q + 1)
  }

  predicate TermsStop(g: string, p: int, inGroup: bool)
  {
    At(g, p) == '\0' || (inGroup && (At(g, p) == ',' || At(g, p) == '}'))
  }

  /** One pass of the terms loop: a set, a group, a wildcard or a literal. */
  function Term(g: string, p: int, d: Dialect): (r: Emitted)
    requires InGlob(g, p) && At(g, p) != '\0'
    ensures p < r.pos <= |g|
    decreases |g| - p, 1
  {
    if At(g, p) == '[' then Set(g, p, d)
    else if At(g, p) == '{' then Group(g, p, d)
    else if At(g, p) == '?' || At(g, p) == '*' then Wildcard(g, p, d)
    else Literal(g, p, d)
  }

  /** The terms lambda; inside a group it also stops at ',' and '}'. */
  function Terms(g: string, p: int, d: Dialect, inGroup: bool): (r: Emitted)
    requires InGlob(g, p)
    ensures p <= r.pos <= |g| && TermsStop(g, r.pos, inGroup)
    ensures !TermsStop(g, p, inGroup) ==> p < r.pos
    decreases |g| - p, 2
  {
    if TermsStop(g, p, inGroup) then Emitted("", p)
    else
      var t := Term(g, p, d);
      var rest := Terms(g, t.pos, d, inGroup);
      Emitted(t.out + rest.out, rest.pos)
  }

  /** The group lambda: alternatives separated by ',' become a '|' alternation. */
  function Group(g: string, p: int, d: Dialect): (r: Emitted)
    requires InGlob(g, p) && At(g, p) == '{'
    ensures p < r.pos <= |g|
    decreases |g| - p, 0
  {
    var b := GroupBody(g, p + 1, d);
    Emitted("(" + b.out + ")", b.pos)
  }

  /** The alternatives of a group, through its closing '}' if there is one. */
  function GroupBody(g: string, p: int, d: Dialect): (r: Emitted)
    requires InGlob(g, p)
    ensures p <= r.pos <= |g|
    decreases |g| - p, 3
  {
    if At(g, p) == '\0' then Emitted("", p)
    else if At(g, p) == '}' then Emitted("", p + 1)
    else if At(g, p) == ',' then
      var rest := GroupBody(g, p + 1, d);
      Emitted("|" + rest.out, rest.pos)
    else
      var t := Terms(g, p, d, true);
      var rest := GroupBody(g, t.pos, d);
      Emitted(t.out + rest.out, rest.pos)
  }

  /** The outer loop: terms until the end of the glob. */
  function TopLevel(g: string, p: int, d: Dialect): string
    requires InGlob(g, p)
    decreases |g| - p
  {
    if At(g, p) == '\0' then ""
    else
      var t := Terms(g, p, d, false);
      t.out + TopLevel(g, t.pos, d)
  }

  /** The whole translation. */
  function Translate(g: string, d: Dialect): (r: string)
    ensures |r| >= 2 && r[0] == '^' && r[|r| - 1] == '$'
  {
    "^" + TopLevel(g, 0, d) + "$"
  }

  /** The terms loop state after one more term. */
  lemma TermsLoopStep(g: string, p: int, q: int, d: Dialect, inGroup: bool, regex: string, regex': string)
    requires InGlob(g, p) && InGlob(g, q) && !TermsStop(g, q, inGroup)
    requires regex + Terms(g, p, d, inGroup).out == regex' + Terms(g, q, d, inGroup).out
    ensures var t := Term(g, q, d);
      regex + Terms(g, p, d, inGroup).out == (regex' + t.out) + Terms(g, t.pos, d, inGroup).out &&
      Terms(g, q, d, inGroup).pos == Terms(g, t.pos, d, inGroup).pos
  {
    var t := Term(g, q, d);
    assert Terms(g, q, d, inGroup).out == t.out + Terms(g, t.pos, d, inGroup).out;
  }

  /** The alternatives loop state after a ',' or one more run of terms. */
  lemma GroupBodyStep(g: string, p: int, q: int, d: Dialect, regex: string, regex': string)
    requires InGlob(g, p) && InGlob(g, q) && At(g, q) != '\0' && At(g, q) != '}'
    requires regex + GroupBody(g, p, d).out == regex' + GroupBody(g, q, d).out
    ensures At(g, q) == ',' ==>
      regex + GroupBody(g, p, d).out == (regex' + "|") + GroupBody(g, q + 1, d).out &&
      GroupBody(g, q, d).pos == GroupBody(g, q + 1, d).pos
    ensures At(g, q) != ',' ==> var t := Terms(g, q, d, true);
      regex + GroupBody(g, p, d).out == (regex' + t.out) + GroupBody(g, t.pos, d).out &&
      GroupBody(g, q, d).pos == GroupBody(g, t.pos, d).pos
  {
    if At(g, q) == ',' {
      assert GroupBody(g, q, d).out == "|" + GroupBody(g, q + 1, d).out;
    } else {
      var t := Terms(g, q, d, true);
      assert GroupBody(g, q, d).out == t.out + GroupBody(g, t.pos, d).out;
    }
  }

  /** The alternatives loop at its end: nothing more is emitted, and a '}' is consumed. */
  lemma GroupBodyEnd(g: string, p: int, q: int, d: Dialect, regex: string, regex': string)
    requires InGlob(g, p) && InGlob(g, q) && (At(g, q) == '\0' || At(g, q) == '}')
    requires regex + GroupBody(g, p, d).out == regex' + GroupBody(g, q, d).out
    requires GroupBody(g, p, d).pos == GroupBody(g, q, d).pos
    ensures regex' == regex + GroupBody(g, p, d).out
    ensures GroupBody(g, p, d).pos == if At(g, q) == '}' then q + 1 else q
  {
    assert GroupBody(g, q, d) == Emitted("", if At(g, q) == '}' then q + 1 else q);
  }

  // ------------------------------------------------------ the cursor loops

  /** The loop of the "**" branch: skip further stars. */
  method SkipStars(g: string, p: int) returns (q: int)
    requires InGlob(g, p)
    ensures q == StarsEnd(g, p)
  {
    q := p;
    while At(g, q) == '*'
      invariant p <= q <= |g| && StarsEnd(g, q) == StarsEnd(g, p)
      decreases |g| - q
    {
      q := q + 1;
    }
  }

  /** The current translator's counting loop over a run of '?' and '*'. */
  method CountRun(g: string, p: int) returns (r: Run)
    requires InGlob(g, p)
    ensures r == WildRun(g, p)
  {
    var min: nat := 0;
    var noMax := false;
    var q := p;
    while At(g, q) == '?' || At(g, q) == '*'
      invariant p <= q <= |g|
      invariant Run(min + WildRun(g, q).min, noMax || WildRun(g, q).noMax, WildRun(g, q).end) == WildRun(g, p)
      decreases |g| - q
    {
      if At(g, q) == '?' {
        min := min + 1;
      } else {
        noMax := true;
      }
      q := q + 1;
    }
    r := Run(min, noMax, q);
  }

  /** The older translator's counting loop, which breaks in front of a "**". */
  method LegacyCountRun(g: string, p: int) returns (r: Run)
    requires InGlob(g, p)
    ensures r == LegacyWildRun(g, p)
  {
    var min: nat := 0;
    var noMax := false;
    var q := p;
    while true
      invariant p <= q <= |g|
      invariant Run(min + LegacyWildRun(g, q).min, noMax || LegacyWildRun(g, q).noMax, LegacyWildRun(g, q).end) == LegacyWildRun(g, p)
      decreases |g| - q
    {
      if At(g, q) == '?' {
        min := min + 1;
      } else if At(g, q) == '*' {
        if At(g, q + 1) == '*' {
          break;
        }
        noMax := true;
      } else {
        break;
      }
      q := q + 1;
    }
    r := Run(min, noMax, q);
  }

  /** The wildcard lambda. */
  method WildcardStep(g: string, p: int, d: Dialect, regex: string) returns (q: int, regex': string)
    requires InGlob(g, p) && (At(g, p) == '?' || At(g, p) == '*')
    ensures q == Wildcard(g, p, d).pos && regex' == regex + Wildcard(g, p, d).out
  {
    if At(g, p) == '*' && At(g, p + 1) == '*' {
      var any := if d == Current then ".*" else ".";
      regex' := regex + any;
      q := SkipStars(g, p + 2);
      regex' := regex' + Quantifier(d, 0, false);
      Append3(regex, any, Quantifier(d, 0, false));
    } else {
      var r: Run;
      var atom: string;
      if d == Current {
        atom := "[^/]*";
        regex' := regex + atom;
        r := CountRun(g, p);
      } else {
        atom := "[^/]";
        regex' := regex + atom;
        r := LegacyCountRun(g, p);
      }
      q := r.end;
      regex' := regex' + Quantifier(d, r.min, r.noMax);
      Append3(regex, atom, Quantifier(d, r.min, r.noMax));
    }
  }

  /** The member loop of the current translator's set lambda. */
  method SetBodyLoop(g: string, p: int, regex: string) returns (q: int, regex': string)
    requires InGlob(g, p)
    ensures q == SetBody(g, p).pos && regex' == regex + SetBody(g, p).out
  {
    regex' := regex;
    q := p;
    while At(g, q) != '\0' && At(g, q) != ']'
      invariant p <= q <= |g|
      invariant regex + SetBody(g, p).out == regex' + SetBody(g, q).out
      invariant SetBody(g, p).pos == SetBody(g, q).pos
      decreases |g| - q
    {
      SetBodyStep(g, p, q, regex, regex');
      ghost var q0 := q;
      var out := "";
      if At(g, q) == '-' && At(g, q + 1) != ']' {
        out := "-";
        q := q + 1;
      } else {
        if At(g, q) == '\\' && At(g, q + 1) != '\0' {
          out := "\\";
          q := q + 1;
        }
        out := out + [At(g, q)];
        q := q + 1;
      }
      assert Emitted(out, q) == SetMember(g, q0);
      regex' := regex' + out;
    }
  }

  /** The member loop of the older translator's set lambda, which also consumes the ']'. */
  method LegacySetBodyLoop(g: string, p: int, regex: string) returns (q: int, regex': string)
    requires InGlob(g, p)
    ensures q == LegacySetBody(g, p).pos && regex' == regex + LegacySetBody(g, p).out
  {
    regex' := regex;
    q := p;
    while At(g, q) != '\0'
      invariant p <= q <= |g|
      invariant regex + LegacySetBody(g, p).out == regex' + LegacySetBody(g, q).out
      invariant LegacySetBody(g, p).pos == LegacySetBody(g, q).pos
      decreases |g| - q
    {
      ghost var q0 := q;
      var c := At(g, q);
      q := q + 1;
      if c == ']' {
        break;
      }
      var out := "";
      if c != '-' {
        if c == '\\' && At(g, q) != '\0' {
          c := At(g, q);
          q := q + 1;
        }
        if c == ']' || c == '\\' || c == '-' {
          out := "\\";
        }
      }
      out := out + [c];
      assert Emitted(out, q) == LegacyMember(g, q0);
      LegacySetBodyStep(g, p, q0, regex, regex');
      regex' := regex' + out;
    }
  }

  /** The set lambda. */
  method SetStep(g: string, p: int, d: Dialect, regex: string) returns (q: int, regex': string)
    requires InGlob(g, p) && At(g, p) == '['
    ensures q == Set(g, p, d).pos && regex' == regex + Set(g, p, d).out
  {
    var negated := At(g, p + 1) == '^' || At(g, p + 1) == '!';
    var open := if negated then "[^" else "[";
    q := if negated then p + 2 else p + 1;
    if d == Current {
      q, regex' := SetBodyLoop(g, q, regex + open);
      SetClose(g, p, q, regex, regex');
      if At(g, q) == ']' {
        regex' := regex' + "]";
        q := q + 1;
      }
    } else {
      q, regex' := LegacySetBodyLoop(g, q, regex + open);
      regex' := regex' + "]";
    }
  }

  /** The end of the current translator's set: its ']' is copied when it is there. */
  lemma SetClose(g: string, p: int, q: int, regex: string, regex': string)
    requires InGlob(g, p) && At(g, p) == '['
    requires var open := if At(g, p + 1) == '^' || At(g, p + 1) == '!' then "[^" else "[";
      var b := SetBody(g, if open == "[^" then p + 2 else p + 1);
      q == b.pos && regex' == regex + open + b.out
    ensures At(g, q) == ']' ==> Set(g, p, Current) == Emitted(regex' [|regex|..] + "]", q + 1)
    ensures At(g, q) != ']' ==> Set(g, p, Current) == Emitted(regex' [|regex|..], q)
  {
  }

  /** The alternatives loop of the group lambda, through the closing '}'. */
  method GroupBodyLoop(g: string, p: int, d: Dialect, regex: string) returns (q: int, regex': string)
    requires InGlob(g, p)
    ensures q == GroupBody(g, p, d).pos && regex' == regex + GroupBody(g, p, d).out
    decreases |g| - p, 3
  {
    regex' := regex;
    q := p;
    while At(g, q) != '\0' && At(g, q) != '}'
      invariant p <= q <= |g|
      invariant regex + GroupBody(g, p, d).out == regex' + GroupBody(g, q, d).out
      invariant GroupBody(g, p, d).pos == GroupBody(g, q, d).pos
      decreases |g| - q
    {
      GroupBodyStep(g, p, q, d, regex, regex');
      if At(g, q) == ',' {
        regex' := regex' + "|";
        q := q + 1;
      } else {
        q, regex' := TermsStep(g, q, d, true, regex');
      }
    }
    GroupBodyEnd(g, p, q, d, regex, regex');
    if At(g, q) == '}' {
      q := q + 1;
    }
  }

  /** The group lambda. */
  method GroupStep(g: string, p: int, d: Dialect, regex: string) returns (q: int, regex': string)
    requires InGlob(g, p) && At(g, p) == '{'
    ensures q == Group(g, p, d).pos && regex' == regex + Group(g, p, d).out
    decreases |g| - p, 0
  {
    q, regex' := GroupBodyLoop(g, p + 1, d, regex + "(");
    regex' := regex' + ")";
  }

  /** The literal branch of the terms lambda. */
  method LiteralStep(g: string, p: int, d: Dialect, regex: string) returns (q: int, regex': string)
    requires InGlob(g, p) && At(g, p) != '\0'
    ensures q == Literal(g, p, d).pos && regex' == regex + Literal(g, p, d).out
  {
    regex' := regex;
    q := p;
    if At(g, q) == '\\' && At(g, q + 1) != '\0' {
      if d == Current {
        regex' := regex' + "\\";
      }
      q := q + 1;
    }
    if At(g, q) in SPECIALS {
      regex' := regex' + "\\";
    }
    regex' := regex' + [At(g, q)];
    q := q + 1;
  }

  /** One pass of the terms loop. */
  method TermStep(g: string, p: int, d: Dialect, regex: string) returns (q: int, regex': string)
    requires InGlob(g, p) && At(g, p) != '\0'
    ensures q == Term(g, p, d).pos && regex' == regex + Term(g, p, d).out
    decreases |g| - p, 1
  {
    if At(g, p) == '[' {
      q, regex' := SetStep(g, p, d, regex);
    } else if At(g, p) == '{' {
      q, regex' := GroupStep(g, p, d, regex);
    } else if At(g, p) == '?' || At(g, p) == '*' {
      q, regex' := WildcardStep(g, p, d, regex);
    } else {
      q, regex' := LiteralStep(g, p, d, regex);
    }
  }

  /** The terms lambda. */
  method TermsStep(g: string, p: int, d: Dialect, inGroup: bool, regex: string) returns (q: int, regex': string)
    requires InGlob(g, p)
    ensures q == Terms(g, p, d, inGroup).pos && regex' == regex + Terms(g, p, d, inGroup).out
    decreases |g| - p, 2
  {
    regex' := regex;
    q := p;
    while !TermsStop(g, q, inGroup)
      invariant p <= q <= |g|
      invariant regex + Terms(g, p, d, inGroup).out == regex' + Terms(g, q, d, inGroup).out
      invariant Terms(g, p, d, inGroup).pos == Terms(g, q, d, inGroup).pos
      decreases |g| - q
    {
      TermsLoopStep(g, p, q, d, inGroup, regex, regex');
      q, regex' := TermStep(g, q, d, regex');
    }
  }

  /** glob_to_regex (Current) and glob2regex (Legacy). */
  method GlobToRegex(glob: string, d: Dialect) returns (regex: string)
    ensures regex == Translate(glob, d)
  {
    regex := "^";
    var q := 0;
    while At(glob, q) != '\0'
      invariant InGlob(glob, q)
      invariant "^" + TopLevel(glob, 0, d) == regex + TopLevel(glob, q, d)
      decreases |glob| - q
    {
      q, regex := TermsStep(glob, q, d, false, regex);
    }
    regex := regex + "$";
  }

  // ------------------------------------------------------------ properties

  /** A character that is neither the terminator nor the start of a set, group, wildcard or escape. */
  predicate PlainChar(c: char)
  {
    c != '\0' && c != '[' && c != '{' && c != '?' && c != '*' && c != '\\'
  }

  /** One ordinary character as a regex atom: regex metacharacters get a backslash. */
  function Quote(c: char): (r: string)
    ensures r == [c] <==> c !in SPECIALS
    ensures c in SPECIALS ==> r == ['\\', c]
  {
    (if c in SPECIALS then "\\" else "") + [c]
  }

  function QuoteAll(s: string): string
  {
    if s == [] then "" else Quote(s[0]) + QuoteAll(s[1..])
  }

  /** A run of ordinary characters is translated character by character. */
  lemma {:induction false} PlainTerms(g: string, p: int, d: Dialect)
    requires InGlob(g, p)
    requires forall i | p <= i < |g| :: PlainChar(g[i])
    ensures Terms(g, p, d, false) == Emitted(QuoteAll(g[p..]), |g|)
    decreases |g| - p
  {
    if p < |g| {
      PlainTerms(g, p + 1, d);
      assert g[p..] == [g[p]] + g[p + 1..];
      assert Term(g, p, d) == Emitted(Quote(g[p]), p + 1);
    }
  }

  /**
   * Both translators match a glob of ordinary characters literally: the
   * regex is the glob with its metacharacters escaped, between anchors.
   */
  lemma {:induction false} PlainTranslate(g: string, d: Dialect)
    requires forall i | 0 <= i < |g| :: PlainChar(g[i])
    ensures Translate(g, d) == "^" + QuoteAll(g) + "$"
  {
    if g != [] {
      PlainTopLevel(g, d);
    }
  }

  lemma {:induction false} PlainTopLevel(g: string, d: Dialect)
    requires g != [] && forall i | 0 <= i < |g| :: PlainChar(g[i])
    ensures TopLevel(g, 0, d) == QuoteAll(g)
  {
    PlainTerms(g, 0, d);
    assert g[0..] == g;
    OneTermsPass(g, d);
  }

  /** When the first pass of the terms loop reaches the end of the glob, it is the whole top level. */
  lemma OneTermsPass(g: string, d: Dialect)
    requires g != [] && g[0] != '\0' && Terms(g, 0, d, false).pos == |g|
    ensures TopLevel(g, 0, d) == Terms(g, 0, d, false).out
  {
    assert TopLevel(g, |g|, d) == "";
  }

  /** Quoting leaves a string without metacharacters untouched. */
  lemma {:induction false} QuoteAllIdentity(s: string)
    requires forall i | 0 <= i < |s| :: s[i] !in SPECIALS
    ensures QuoteAll(s) == s
  {
    if s != [] {
      QuoteAllIdentity(s[1..]);
      assert s == [s[0]] + s[1..];
    }
  }

  /** Quoting never drops a character, and adds one backslash per metacharacter. */
  lemma {:induction false} QuoteAllLength(s: string)
    ensures |s| <= |QuoteAll(s)| <= 2 * |s|
  {
    if s != [] {
      QuoteAllLength(s[1..]);
    }
  }

  /** A glob that is one term is translated to that term between anchors. */
  lemma OneTerm(g: string, d: Dialect)
    requires |g| > 0 && g[0] != '\0' && Term(g, 0, d).pos == |g|
    ensures Translate(g, d) == "^" + Term(g, 0, d).out + "$"
  {
    var t := Term(g, 0, d);
    assert Terms(g, |g|, d, false) == Emitted("", |g|);
    assert Terms(g, 0, d, false) == Emitted(t.out, |g|);
    assert TopLevel(g, |g|, d) == "";
    assert TopLevel(g, 0, d) == t.out;
  }

  /** "?" matches any run of non-slash characters in the current translator, exactly one in the older. */
  lemma QuestionMarkExample()
    ensures Translate("?", Current) == "^[^/]*$" && Translate("?", Legacy) == "^[^/]$"
  {
    var g := "?";
    assert WildRun(g, 1) == Run(0, false, 1);
    assert Term(g, 0, Current) == Emitted("[^/]*", 1);
    OneTerm(g, Current);
    assert LegacyWildRun(g, 1) == Run(0, false, 1);
    assert Term(g, 0, Legacy) == Emitted("[^/]", 1);
    OneTerm(g, Legacy);
  }

  lemma StarExample()
    ensures Translate("*", Current) == "^[^/]*$" && Translate("*", Legacy) == "^[^/]*$"
  {
    var g := "*";
    assert WildRun(g, 1) == Run(0, false, 1);
    assert Term(g, 0, Current) == Emitted("[^/]*", 1);
    OneTerm(g, Current);
    assert LegacyWildRun(g, 1) == Run(0, false, 1);
    assert Term(g, 0, Legacy) == Emitted("[^/]*", 1);
    OneTerm(g, Legacy);
  }

  /** "**" matches anything, slashes included, in both translators. */
  lemma DoubleStarExample()
    ensures Translate("**", Current) == "^.*$" && Translate("**", Legacy) == "^.*$"
  {
    var g := "**";
    assert StarsEnd(g, 2) == 2;
    assert Term(g, 0, Current) == Emitted(".*", 2);
    OneTerm(g, Current);
    assert Term(g, 0, Legacy) == Emitted(".*", 2);
    OneTerm(g, Legacy);
  }

  /** Three '?' still admit longer names in the current translator. */
  lemma ThreeQuestionMarksExample()
    ensures Translate("???", Current) == "^[^/]*{3}$" && Translate("???", Legacy) == "^[^/]{3}$"
  {
    var g := "???";
    assert NatToString(3) == "3";
    ThreeQuestionMarksCurrent(g);
    ThreeQuestionMarksLegacy(g);
  }

  lemma ThreeQuestionMarksCurrent(g: string)
    requires g == "???" && NatToString(3) == "3"
    ensures Translate(g, Current) == "^[^/]*{3}$"
  {
    assert WildRun(g, 3) == Run(0, false, 3);
    assert WildRun(g, 2) == Run(1, false, 3);
    assert WildRun(g, 1) == Run(2, false, 3);
    assert WildRun(g, 0) == Run(3, false, 3);
    assert Quantifier(Current, 3, false) == "{3}";
    assert Term(g, 0, Current) == Emitted("[^/]*{3}", 3);
    OneTerm(g, Current);
  }

  lemma ThreeQuestionMarksLegacy(g: string)
    requires g == "???" && NatToString(3) == "3"
    ensures Translate(g, Legacy) == "^[^/]{3}$"
  {
    assert LegacyWildRun(g, 3) == Run(0, false, 3);
    assert LegacyWildRun(g, 2) == Run(1, false, 3);
    assert LegacyWildRun(g, 1) == Run(2, false, 3);
    assert LegacyWildRun(g, 0) == Run(3, false, 3);
    assert Quantifier(Legacy, 3, false) == "{3}";
    assert Term(g, 0, Legacy) == Emitted("[^/]{3}", 3);
    OneTerm(g, Legacy);
  }

  lemma QuestionStarExample()
    ensures Translate("?*", Current) == "^[^/]*+$" && Translate("?*", Legacy) == "^[^/]+$"
  {
    var g := "?*";
    assert WildRun(g, 2) == Run(0, false, 2);
    assert WildRun(g, 1) == Run(0, true, 2);
    assert WildRun(g, 0) == Run(1, true, 2);
    assert Term(g, 0, Current) == Emitted("[^/]*+", 2);
    OneTerm(g, Current);
    assert LegacyWildRun(g, 2) == Run(0, false, 2);
    assert LegacyWildRun(g, 1) == Run(0, true, 2);
    assert LegacyWildRun(g, 0) == Run(1, true, 2);
    assert Term(g, 0, Legacy) == Emitted("[^/]+", 2);
    OneTerm(g, Legacy);
  }

  /** A group becomes an alternation. */
  lemma GroupExample(d: Dialect)
    ensures Translate("{a,b}", d) == "^(a|b)$"
  {
    GroupExampleTerm(d);
    OneTerm("{a,b}", d);
    assert "^" + "(a|b)" + "$" == "^(a|b)$";
  }

  lemma GroupExampleTerm(d: Dialect)
    ensures Term("{a,b}", 0, d) == Emitted("(a|b)", 5)
  {
    var g := "{a,b}";
    GroupExampleBody(d);
    assert Group(g, 0, d) == Emitted("(" + "a|b" + ")", 5);
  }

  lemma GroupExampleBody(d: Dialect)
    ensures GroupBody("{a,b}", 1, d) == Emitted("a|b", 5)
  {
    var g := "{a,b}";
    GroupExampleTerms(d);
    assert GroupBody(g, 4, d) == Emitted("", 5);
    assert GroupBody(g, 3, d) == Emitted("b", 5);
    assert GroupBody(g, 2, d) == Emitted("|b", 5);
  }

  lemma GroupExampleTerms(d: Dialect)
    ensures Terms("{a,b}", 1, d, true) == Emitted("a", 2)
    ensures Terms("{a,b}", 3, d, true) == Emitted("b", 4)
  {
    GroupMemberTerm(d, 1);
    GroupMemberTerm(d, 3);
  }

  /** A one-letter member of "{a,b}" ends at the ',' or '}' after it. */
  lemma GroupMemberTerm(d: Dialect, p: nat)
    requires p == 1 || p == 3
    ensures Terms("{a,b}", p, d, true) == Emitted(["{a,b}"[p]], p + 1)
  {
    var g := "{a,b}";
    assert At(g, p) == g[p] && At(g, p + 1) == g[p + 1];
    assert g[p] !in SPECIALS;
    assert Term(g, p, d) == Literal(g, p, d) == Emitted([g[p]], p + 1);
    assert Terms(g, p + 1, d, true) == Emitted("", p + 1);
  }

  /** A negated range: both translators write '!' as '^'. */
  lemma NegatedSetExample()
    ensures Translate("[!a-z]", Current) == "^[^a-z]$" && Translate("[!a-z]", Legacy) == "^[^a-z]$"
  {
    NegatedSetCurrent();
    NegatedSetLegacy();
  }

  lemma NegatedSetCurrent()
    ensures Translate("[!a-z]", Current) == "^[^a-z]$"
  {
    var g := "[!a-z]";
    assert SetBody(g, 5) == Emitted("", 5);
    assert SetBody(g, 4) == Emitted("z", 5);
    assert SetBody(g, 3) == Emitted("-z", 5);
    assert SetBody(g, 2) == Emitted("a-z", 5);
    assert Term(g, 0, Current) == Emitted("[^a-z]", 6);
    OneTerm(g, Current);
  }

  lemma NegatedSetLegacy()
    ensures Translate("[!a-z]", Legacy) == "^[^a-z]$"
  {
    var g := "[!a-z]";
    assert LegacySetBody(g, 5) == Emitted("", 6);
    assert LegacySetBody(g, 4) == Emitted("z", 6);
    assert LegacySetBody(g, 3) == Emitted("-z", 6);
    assert LegacySetBody(g, 2) == Emitted("a-z", 6);
    assert Term(g, 0, Legacy) == Emitted("[^a-z]", 6);
    OneTerm(g, Legacy);
  }

  /** An unclosed set stays open in the current translator; the older one closes it. */
  lemma UnclosedSetExample()
    ensures Translate("[ab", Current) == "^[ab$" && Translate("[ab", Legacy) == "^[ab]$"
  {
    UnclosedSetCurrent();
    UnclosedSetLegacy();
  }

  lemma UnclosedSetCurrent()
    ensures Translate("[ab", Current) == "^[ab$"
  {
    var g := "[ab";
    assert SetBody(g, 3) == Emitted("", 3);
    assert SetBody(g, 2) == Emitted("b", 3);
    assert SetBody(g, 1) == Emitted("ab", 3);
    assert Term(g, 0, Current) == Emitted("[ab", 3);
    OneTerm(g, Current);
  }

  lemma UnclosedSetLegacy()
    ensures Translate("[ab", Legacy) == "^[ab]$"
  {
    var g := "[ab";
    assert LegacySetBody(g, 3) == Emitted("", 3);
    assert LegacySetBody(g, 2) == Emitted("b", 3);
    assert LegacySetBody(g, 1) == Emitted("ab", 3);
    assert Term(g, 0, Legacy) == Emitted("[ab]", 3);
    OneTerm(g, Legacy);
  }

  /**
   * An escaped '*': the older translator yields a literal star, the current
   * one keeps the glob's backslash and then escapes the star as well, which
   * makes a literal backslash under a '*' quantifier.
   */
  lemma EscapedStarExample()
    ensures Translate("\\*", Current) == "^\\\\*$" && Translate("\\*", Legacy) == "^\\*$"
  {
    EscapedStarIn(Current, "\\\\*");
    EscapedStarIn(Legacy, "\\*");
  }

  /** The term the two-character glob "\\*" is in one dialect. */
  lemma EscapedStarIn(d: Dialect, out: string)
    requires out == if d == Current then "\\\\*" else "\\*"
    ensures Translate("\\*", d) == "^" + out + "$"
  {
    var g := "\\*";
    assert '*' in SPECIALS;
    assert At(g, 0) == '\\' && At(g, 1) == '*' && At(g, 2) == '\0';
    if d == Current {
      assert Literal(g, 0, Current) == Emitted(out, 2);
    }
    assert Term(g, 0, d) == Emitted(out, 2);
    OneTerm(g, d);
  }
}
