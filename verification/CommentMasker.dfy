/** JavaScript comment masker: `_mask_js_comments` in scripts/check_model_name_literals.py.

    The method below follows the script: it overwrites a buffer in place and jumps over whole
    comments, regex literals and escapes.  It is proved against an automaton that reads one
    character at a time.  `alnum` stands for Python's `str.isalnum` and is arbitrary. */
module CommentMasker {

  // ----- the automaton -----

  datatype Mode =
    | Code
    | LineComment
    | BlockOpen                     // at the star of the opening marker
    | Block
    | BlockClose                    // at the slash of the closing marker
    | Regex | RegexEscape
    | Class | ClassEscape           // character class of a regex
    | Str(quote: char) | StrEscape(quote: char)
    | Dollar                        // at the brace of an interpolation's opening marker
    | Interp(depth: nat) | InterpEscape(depth: nat)

  predicate IsAt(s: string, k: nat, c: char) {
    k < |s| && s[k] == c
  }

  predicate IsQuote(c: char) {
    c == '\'' || c == '"' || c == '`'
  }

  predicate EndsValue(alnum: char -> bool, c: char) {
    alnum(c) || c == '_' || c == '$' || c == ')' || c == ']' || c == '}'
  }

  /** Whether the last character before `k` that is no blank or tab ends a value. */
  predicate AfterValue(alnum: char -> bool, s: string, k: nat)
    requires k <= |s|
  {
    k > 0 && if s[k - 1] == ' ' || s[k - 1] == '\t' then AfterValue(alnum, s, k - 1)
             else EndsValue(alnum, s[k - 1])
  }

  predicate OpensComment(s: string, k: nat) {
    IsAt(s, k, '/') && (IsAt(s, k + 1, '/') || IsAt(s, k + 1, '*'))
  }

  predicate ClosesBlock(s: string, k: nat) {
    IsAt(s, k, '*') && IsAt(s, k + 1, '/')
  }

  /** The markers of a comment, as text. */
  lemma MarkersAre(s: string, k: nat)
    requires k < |s|
    ensures OpensComment(s, k) <==> k + 2 <= |s| && (s[k..k + 2] == "//" || s[k..k + 2] == "/*")
    ensures ClosesBlock(s, k) <==> k + 2 <= |s| && s[k..k + 2] == "*/"
  {
    if k + 2 <= |s| {
      assert s[k..k + 2] == [s[k], s[k + 1]];
    }
  }

  function Next(alnum: char -> bool, s: string, k: nat, mode: Mode): Mode
    requires k < |s|
  {
    var c := s[k];
    match mode
    case Code =>
      if c == '/' && IsAt(s, k + 1, '/') then LineComment
      else if c == '/' && IsAt(s, k + 1, '*') then BlockOpen
      else if c == '/' && !AfterValue(alnum, s, k) then Regex
      else if IsQuote(c) then Str(c)
      else Code
    case LineComment => if IsAt(s, k + 1, '\n') then Code else LineComment
    case BlockOpen => Block
    case Block => if ClosesBlock(s, k) then BlockClose else Block
    case BlockClose => Code
    case Regex =>
      if c == '\n' || c == '/' then Code
      else if c == '\\' then RegexEscape
      else if c == '[' then Class
      else Regex
    case RegexEscape => Regex
    case Class =>
      if c == ']' || c == '\n' then Regex
      else if c == '\\' then ClassEscape
      else Class
    case ClassEscape => Class
    case Str(q) =>
      if c == '\\' then StrEscape(q)
      else if q == '`' && c == '$' && IsAt(s, k + 1, '{') then Dollar
      else if c == q then Code
      else Str(q)
    case StrEscape(q) => Str(q)
    case Dollar => Interp(0)
    case Interp(d) =>
      if c == '\\' then InterpEscape(d)
      else if c == '{' then Interp(d + 1)
      else if c == '}' then if d <= 1 then Str('`') else Interp(d - 1)
      else Interp(d)
    case InterpEscape(d) => Interp(d)
  }

  /** The mode before character `k`. */
  function ModeAt(alnum: char -> bool, s: string, k: nat): Mode
    requires k <= |s|
  {
    if k == 0 then Code else Next(alnum, s, k - 1, ModeAt(alnum, s, k - 1))
  }

  predicate IsComment(alnum: char -> bool, s: string, k: nat)
    requires k < |s|
  {
    match ModeAt(alnum, s, k)
    case Code => OpensComment(s, k)
    case LineComment => true
    case BlockOpen => true
    case Block => true
    case BlockClose => true
    case _ => false
  }

  /** The first `k` characters, with the comments blanked. */
  function MaskedUpTo(alnum: char -> bool, s: string, k: nat): (m: string)
    requires k <= |s|
    ensures |m| == k
  {
    if k == 0 then []
    else
      var c := if IsComment(alnum, s, k - 1) && s[k - 1] != '\n' then ' ' else s[k - 1];
      MaskedUpTo(alnum, s, k - 1) + [c]
  }

  function Masked(alnum: char -> bool, s: string): (m: string)
    ensures |m| == |s|
  {
    MaskedUpTo(alnum, s, |s|)
  }

  lemma {:induction false} MaskedUpToAt(alnum: char -> bool, s: string, n: nat, k: nat)
    requires k < n <= |s|
    ensures MaskedUpTo(alnum, s, n)[k] == if IsComment(alnum, s, k) && s[k] != '\n' then ' ' else s[k]
  {
    if k < n - 1 {
      MaskedUpToAt(alnum, s, n - 1, k);
    }
  }

  /** Masking blanks the comment characters that are no newline, and keeps every other character. */
  lemma MaskedAt(alnum: char -> bool, s: string, k: nat)
    requires k < |s|
    ensures Masked(alnum, s)[k] == if IsComment(alnum, s, k) && s[k] != '\n' then ' ' else s[k]
  {
    MaskedUpToAt(alnum, s, |s|, k);
  }

  lemma MaskedChars(alnum: char -> bool, s: string)
    ensures forall k :: 0 <= k < |s| ==>
      Masked(alnum, s)[k] == if IsComment(alnum, s, k) && s[k] != '\n' then ' ' else s[k]
  {
    forall k | 0 <= k < |s|
      ensures Masked(alnum, s)[k] == if IsComment(alnum, s, k) && s[k] != '\n' then ' ' else s[k]
    {
      MaskedAt(alnum, s, k);
    }
  }

  // ----- what a comment is -----

  /** From the code-mode opener `o`, the comment reaches at least to character `k`. */
  ghost predicate Reaches(s: string, o: nat, k: nat)
    requires o <= k < |s|
  {
    if IsAt(s, o + 1, '/') then forall j :: o <= j <= k ==> s[j] != '\n'
    else forall j :: o + 2 <= j < k - 1 ==> !ClosesBlock(s, j)
  }

  ghost predicate InCommentSpan(alnum: char -> bool, s: string, o: nat, k: nat)
    requires k < |s|
  {
    o <= k && ModeAt(alnum, s, o) == Code && OpensComment(s, o) && Reaches(s, o, k)
  }

  /** The automaton inside a comment: it stays there exactly as long as the comment reaches. */
  lemma {:induction false} CommentRun(alnum: char -> bool, s: string, o: nat, k: nat)
    requires k < |s| && InCommentSpan(alnum, s, o, k)
    ensures IsComment(alnum, s, k)
    ensures k > o ==>
      (ModeAt(alnum, s, k) ==
        if IsAt(s, o + 1, '/') then LineComment
        else if k == o + 1 then BlockOpen
        else if k > o + 2 && ClosesBlock(s, k - 1) then BlockClose
        else Block)
    decreases k
  {
    if k > o {
      CommentRun(alnum, s, o, k - 1);
    }
  }

  /** A character is a comment character iff it lies in the span of an opener met in code. */
  lemma {:induction false} CommentIffInSpan(alnum: char -> bool, s: string, k: nat)
    requires k < |s|
    ensures IsComment(alnum, s, k) <==> exists o: nat :: InCommentSpan(alnum, s, o, k)
  {
    if IsComment(alnum, s, k) {
      var o := OpenerOf(alnum, s, k);
    }
    forall o: nat | InCommentSpan(alnum, s, o, k)
      ensures IsComment(alnum, s, k)
    {
      CommentRun(alnum, s, o, k);
    }
  }

  lemma {:induction false} OpenerOf(alnum: char -> bool, s: string, k: nat) returns (o: nat)
    requires k < |s| && IsComment(alnum, s, k)
    ensures InCommentSpan(alnum, s, o, k)
  {
    if ModeAt(alnum, s, k) == Code {
      return k;
    }
    o := OpenerOf(alnum, s, k - 1);
    if k - 1 > o {
      CommentRun(alnum, s, o, k - 1);
    }
  }

  // ----- what survives -----

  /** Masking keeps every newline where it is, and adds none. */
  lemma NewlinesStay(alnum: char -> bool, s: string, k: nat)
    requires k < |s|
    ensures Masked(alnum, s)[k] == '\n' <==> s[k] == '\n'
  {
    MaskedAt(alnum, s, k);
  }

  lemma SliceSurvives(alnum: char -> bool, s: string, b: nat, e: nat)
    requires b <= e <= |s| && forall j :: b <= j < e ==> !IsComment(alnum, s, j)
    ensures Masked(alnum, s)[b..e] == s[b..e]
  {
    MaskedChars(alnum, s);
    var m := Masked(alnum, s);
    assert forall j :: b <= j < e ==> m[j] == s[j];
  }

  predicate InLiteralMode(mode: Mode) {
    mode.Regex? || mode.RegexEscape? || mode.Class? || mode.ClassEscape?
    || mode.Str? || mode.StrEscape? || mode.Dollar? || mode.Interp? || mode.InterpEscape?
  }

  /** From anything but a comment's opener, the scanner meets no comment before it is next in code. */
  lemma {:induction false} LiteralRun(alnum: char -> bool, s: string, b: nat, k: nat)
    requires b < k <= |s| && ModeAt(alnum, s, b) == Code && !OpensComment(s, b)
    requires forall j :: b < j <= k ==> ModeAt(alnum, s, j) != Code
    ensures InLiteralMode(ModeAt(alnum, s, k))
  {
    if k > b + 1 {
      LiteralRun(alnum, s, b, k - 1);
    }
  }

  /** Every literal survives whole, whatever its kind and whatever it holds: strings, regexes and
      templates with escapes, classes and interpolations, up to where the scanner is back in code. */
  lemma {:induction false} EveryLiteralSurvives(alnum: char -> bool, s: string, b: nat, e: nat)
    requires b < e <= |s| && ModeAt(alnum, s, b) == Code && !OpensComment(s, b)
    requires forall j :: b < j < e ==> ModeAt(alnum, s, j) != Code
    ensures Masked(alnum, s)[b..e] == s[b..e]
  {
    forall j | b <= j < e
      ensures !IsComment(alnum, s, j)
    {
      if j > b {
        LiteralRun(alnum, s, b, j);
      }
    }
    SliceSurvives(alnum, s, b, e);
  }

  // ----- the literals, in characters -----

  /** The character at `k` is taken as it is by an odd number of backslashes before it, from `p` on. */
  predicate Escaped(s: string, p: nat, k: nat)
    requires p <= k <= |s|
  {
    k > p && s[k - 1] == '\\' && !Escaped(s, p, k - 1)
  }

  /** `p` holds the last character before `k` that is no blank and no tab. */
  ghost predicate LastVisible(s: string, p: nat, k: nat)
    requires k <= |s|
  {
    p < k && s[p] != ' ' && s[p] != '\t' && forall j :: p < j < k ==> s[j] == ' ' || s[j] == '\t'
  }

  /** A slash is a division after an identifier, a number or a closing bracket, blanks aside. */
  lemma {:induction false} AfterValueIff(alnum: char -> bool, s: string, k: nat)
    requires k <= |s|
    ensures AfterValue(alnum, s, k) <==>
      exists p: nat :: LastVisible(s, p, k) && (alnum(s[p]) || s[p] in {'_', '$', ')', ']', '}'})
  {
    if k > 0 {
      if s[k - 1] == ' ' || s[k - 1] == '\t' {
        AfterValueIff(alnum, s, k - 1);
        assert forall p: nat :: LastVisible(s, p, k) <==> LastVisible(s, p, k - 1);
      } else {
        assert LastVisible(s, k - 1, k);
        assert forall p: nat :: LastVisible(s, p, k) ==> p == k - 1;
      }
    }
  }

  /** Code goes on after any character that opens nothing: no quote, and no slash but a division. */
  lemma CodeGoesOn(alnum: char -> bool, s: string, k: nat)
    requires k < |s| && ModeAt(alnum, s, k) == Code
    requires s[k] !in {'\'', '"', '`'}
    requires s[k] == '/' ==> AfterValue(alnum, s, k) && !IsAt(s, k + 1, '/') && !IsAt(s, k + 1, '*')
    ensures ModeAt(alnum, s, k + 1) == Code && !IsComment(alnum, s, k)
  {
  }

  /** The text of a quoted literal from `p` on ends at `k`: at its quote, or in a template at an
      interpolation, when it is not escaped. */
  predicate EndsText(s: string, p: nat, k: nat, quote: char)
    requires p <= k
  {
    k < |s| && !Escaped(s, p, k) && (s[k] == quote || (quote == '`' && s[k] == '$' && IsAt(s, k + 1, '{')))
  }

  /** Text from `p` on has not ended before `k`. */
  ghost predicate TextTo(s: string, p: nat, k: nat, quote: char) {
    p <= k && forall j :: p <= j < k ==> !EndsText(s, p, j, quote)
  }

  lemma {:induction false} InText(alnum: char -> bool, s: string, p: nat, k: nat, quote: char)
    requires k <= |s| && TextTo(s, p, k, quote) && ModeAt(alnum, s, p) == Str(quote) && IsQuote(quote)
    ensures ModeAt(alnum, s, k) == if Escaped(s, p, k) then StrEscape(quote) else Str(quote)
    decreases k
  {
    if k > p {
      InText(alnum, s, p, k - 1, quote);
      assert !EndsText(s, p, k - 1, quote);
    }
  }

  /** Text survives up to its first end.  There a quote leads back to code, and an interpolation's
      marker into it. */
  lemma {:induction false} TextSurvives(alnum: char -> bool, s: string, p: nat, e: nat, quote: char)
    requires p <= e < |s| && ModeAt(alnum, s, p) == Str(quote) && quote in {'\'', '"', '`'}
    requires EndsText(s, p, e, quote) && TextTo(s, p, e, quote)
    ensures Masked(alnum, s)[p..e + 1] == s[p..e + 1]
    ensures s[e] == quote ==> ModeAt(alnum, s, e + 1) == Code
    ensures s[e] != quote ==> ModeAt(alnum, s, e + 2) == Interp(0)
  {
    forall j | p <= j <= e
      ensures !IsComment(alnum, s, j)
    {
      InText(alnum, s, p, j, quote);
    }
    InText(alnum, s, p, e, quote);
    SliceSurvives(alnum, s, p, e + 1);
    assert s[e] != quote ==> ModeAt(alnum, s, e + 1) == Dollar;
  }

  /** A quoted literal survives whole up to its first quote that is not escaped, whatever its text holds,
      and the scanner is back in code after it.  A template has no interpolation up to there. */
  lemma {:induction false} StringLiteralSurvives(alnum: char -> bool, s: string, b: nat, e: nat)
    requires b < e < |s| && ModeAt(alnum, s, b) == Code && s[b] in {'\'', '"', '`'} && s[e] == s[b]
    requires EndsText(s, b + 1, e, s[b]) && TextTo(s, b + 1, e, s[b])
    ensures Masked(alnum, s)[b..e + 1] == s[b..e + 1]
    ensures ModeAt(alnum, s, e + 1) == Code
  {
    assert ModeAt(alnum, s, b + 1) == Str(s[b]);
    TextSurvives(alnum, s, b + 1, e, s[b]);
    SliceSurvives(alnum, s, b, b + 1);
    SlicesJoin(Masked(alnum, s), s, b, b + 1, e + 1);
  }

  lemma SlicesJoin(m: string, s: string, b: nat, k: nat, e: nat)
    requires b <= k <= e <= |s| == |m| && m[b..k] == s[b..k] && m[k..e] == s[k..e]
    ensures m[b..e] == s[b..e]
  {
    assert m[b..e] == m[b..k] + m[k..e] && s[b..e] == s[b..k] + s[k..e];
  }

  /** A literal that is never closed runs to the end of the source, and survives. */
  lemma {:induction false} OpenTextSurvives(alnum: char -> bool, s: string, p: nat, quote: char)
    requires p <= |s| && ModeAt(alnum, s, p) == Str(quote) && IsQuote(quote) && TextTo(s, p, |s|, quote)
    ensures Masked(alnum, s)[p..] == s[p..]
  {
    forall j | p <= j < |s|
      ensures !IsComment(alnum, s, j)
    {
      InText(alnum, s, p, j, quote);
    }
    SliceSurvives(alnum, s, p, |s|);
    assert Masked(alnum, s)[p..] == Masked(alnum, s)[p..|s|] && s[p..] == s[p..|s|];
  }

  /** A character class of the regex whose text starts at `p` is open at `k`: an opening bracket that is
      not escaped opens it, and a closing bracket or newline that is not escaped closes it. */
  predicate InClass(s: string, p: nat, k: nat)
    requires p <= k <= |s|
  {
    k > p &&
    if InClass(s, p, k - 1) then Escaped(s, p, k - 1) || (s[k - 1] != ']' && s[k - 1] != '\n')
    else !Escaped(s, p, k - 1) && s[k - 1] == '['
  }

  /** The regex whose text starts at `p` ends at `k`: at a slash or at the end of its line, outside any
      class and not escaped. */
  predicate EndsRegex(s: string, p: nat, k: nat)
    requires p <= k
  {
    k < |s| && !Escaped(s, p, k) && !InClass(s, p, k) && (s[k] == '/' || s[k] == '\n')
  }

  /** The regex whose text starts at `p` has not ended before `k`. */
  ghost predicate RegexTo(s: string, p: nat, k: nat) {
    p <= k && forall j :: p <= j < k ==> !EndsRegex(s, p, j)
  }

  /** A slash in code that opens no comment and follows no value. */
  predicate OpensRegexAt(alnum: char -> bool, s: string, b: nat) {
    && b < |s| && ModeAt(alnum, s, b) == Code && s[b] == '/' && !IsAt(s, b + 1, '/') && !IsAt(s, b + 1, '*')
    && !AfterValue(alnum, s, b)
  }

  lemma {:induction false} InRegex(alnum: char -> bool, s: string, b: nat, k: nat)
    requires OpensRegexAt(alnum, s, b) && b < k <= |s| && RegexTo(s, b + 1, k)
    ensures ModeAt(alnum, s, k) ==
      if InClass(s, b + 1, k) then if Escaped(s, b + 1, k) then ClassEscape else Class
      else if Escaped(s, b + 1, k) then RegexEscape else Regex
  {
    if k > b + 1 {
      InRegex(alnum, s, b, k - 1);
      assert !EndsRegex(s, b + 1, k - 1);
    }
  }

  /** A regex survives whole up to its first end, and the scanner is back in code after it. */
  lemma {:induction false} RegexLiteralSurvives(alnum: char -> bool, s: string, b: nat, e: nat)
    requires OpensRegexAt(alnum, s, b) && b < e
    requires EndsRegex(s, b + 1, e) && RegexTo(s, b + 1, e)
    ensures Masked(alnum, s)[b..e + 1] == s[b..e + 1]
    ensures ModeAt(alnum, s, e + 1) == Code
  {
    forall j | b <= j <= e
      ensures !IsComment(alnum, s, j)
    {
      if j > b {
        InRegex(alnum, s, b, j);
      }
    }
    InRegex(alnum, s, b, e);
    SliceSurvives(alnum, s, b, e + 1);
  }

  lemma {:induction false} OpenRegexSurvives(alnum: char -> bool, s: string, b: nat)
    requires OpensRegexAt(alnum, s, b) && RegexTo(s, b + 1, |s|)
    ensures Masked(alnum, s)[b..] == s[b..]
  {
    forall j | b <= j < |s|
      ensures !IsComment(alnum, s, j)
    {
      if j > b {
        InRegex(alnum, s, b, j);
      }
    }
    SliceSurvives(alnum, s, b, |s|);
    assert Masked(alnum, s)[b..] == Masked(alnum, s)[b..|s|] && s[b..] == s[b..|s|];
  }

  /** From code on, a stretch without quotes and slashes is code. */
  lemma {:induction false} CodeRun(alnum: char -> bool, s: string, i: nat, k: nat)
    requires i <= k <= |s| && ModeAt(alnum, s, i) == Code
    requires forall j :: i <= j < k ==> s[j] !in {'\'', '"', '`', '/'}
    ensures ModeAt(alnum, s, k) == Code && Masked(alnum, s)[i..k] == s[i..k]
    decreases k
  {
    if k > i {
      CodeRun(alnum, s, i, k - 1);
      CodeGoesOn(alnum, s, k - 1);
      SliceSurvives(alnum, s, k - 1, k);
      SlicesJoin(Masked(alnum, s), s, i, k - 1, k);
    }
  }

  lemma {:induction false} NoClassOpen(s: string, p: nat, k: nat)
    requires p <= k <= |s| && forall j :: p <= j < k ==> s[j] != '['
    ensures !InClass(s, p, k)
  {
    if k > p {
      NoClassOpen(s, p, k - 1);
    }
  }

  /** The line of the docstring: a regex full of slashes, and a model name after it. */
  const DOC_LINE := "const u = /^https?:\\/\\//, m = \"gpt-4o-mini\";"

  lemma DocLineRegex()
    ensures var s := DOC_LINE;
      && |s| == 44
      && (forall j :: 11 <= j < 24 ==> s[j] != '[' && s[j] != '\n')
      && (forall j :: 11 <= j < 20 ==> s[j] != '/')
      && s[18] == ':' && s[19] == '\\' && s[20] == '/' && s[21] == '\\' && s[22] == '/' && s[23] == '/'
      && s[30] == '"' && s[42] == '"' && (forall j :: 31 <= j < 42 ==> s[j] != '"' && s[j] != '\\')
  {
  }

  lemma DocLineRegexEnds()
    ensures var s := DOC_LINE; |s| == 44 && RegexTo(s, 11, 23) && EndsRegex(s, 11, 23)
  {
    var s := DOC_LINE;
    DocLineRegex();
    assert Escaped(s, 11, 20) && Escaped(s, 11, 22) && !Escaped(s, 11, 23);
    forall j | 11 <= j <= 23 ensures !InClass(s, 11, j) {
      NoClassOpen(s, 11, j);
    }
  }

  /** Code up to a slash at `b` that follows no value, a regex up to `e`, and code after it. */
  lemma RegexInLine(alnum: char -> bool, s: string, i: nat, b: nat, e: nat, k: nat)
    requires i <= b < e < k <= |s| && ModeAt(alnum, s, i) == Code && !AfterValue(alnum, s, b)
    requires forall j :: i <= j < b || e < j < k ==> s[j] !in {'\'', '"', '`', '/'}
    requires s[b] == '/' && s[b + 1] != '/' && s[b + 1] != '*' && RegexTo(s, b + 1, e) && EndsRegex(s, b + 1, e)
    ensures ModeAt(alnum, s, k) == Code && Masked(alnum, s)[i..k] == s[i..k]
  {
    CodeRun(alnum, s, i, b);
    RegexLiteralSurvives(alnum, s, b, e);
    CodeRun(alnum, s, e + 1, k);
    SlicesJoin(Masked(alnum, s), s, i, b, e + 1);
    SlicesJoin(Masked(alnum, s), s, i, e + 1, k);
  }

  /** A quoted literal from `b` to `e`, and code after it. */
  lemma StringInLine(alnum: char -> bool, s: string, b: nat, e: nat, k: nat)
    requires b < e < k <= |s| && ModeAt(alnum, s, b) == Code && s[b] == '"' == s[e]
    requires forall j :: e < j < k ==> s[j] !in {'\'', '"', '`', '/'}
    requires TextTo(s, b + 1, e, '"') && EndsText(s, b + 1, e, '"')
    ensures ModeAt(alnum, s, k) == Code && Masked(alnum, s)[b..k] == s[b..k]
  {
    StringLiteralSurvives(alnum, s, b, e);
    CodeRun(alnum, s, e + 1, k);
    SlicesJoin(Masked(alnum, s), s, b, e + 1, k);
  }

  lemma DocLineLooksBack(alnum: char -> bool)
    requires !alnum('=')
    ensures |DOC_LINE| == 44 && !AfterValue(alnum, DOC_LINE, 10)
  {
    assert !AfterValue(alnum, DOC_LINE, 9);
  }

  /** Nothing of it is blanked, so the name is found. */
  lemma DocLineSurvives(alnum: char -> bool)
    requires !alnum('=')
    ensures Masked(alnum, DOC_LINE) == DOC_LINE
  {
    DocLineRegex();
    DocLineLooksBack(alnum);
    DocLineRegexEnds();
    LineSurvives(alnum, DOC_LINE);
  }

  lemma LineSurvives(alnum: char -> bool, s: string)
    requires |s| == 44 && !AfterValue(alnum, s, 10)
    requires forall j :: 0 <= j < 10 || 24 <= j < 30 || 43 <= j < 44 ==> s[j] !in {'\'', '"', '`', '/'}
    requires s[10] == '/' && s[11] == '^' && RegexTo(s, 11, 23) && EndsRegex(s, 11, 23)
    requires s[30] == '"' == s[42] && TextTo(s, 31, 42, '"') && EndsText(s, 31, 42, '"')
    ensures Masked(alnum, s) == s
  {
    RegexInLine(alnum, s, 0, 10, 23, 30);
    StringInLine(alnum, s, 30, 42, 44);
    SlicesJoin(Masked(alnum, s), s, 0, 30, 44);
    assert Masked(alnum, s) == Masked(alnum, s)[0..44] && s == s[0..44];
  }

  const CLASS_OF_SLASHES := "u=/[/*]/"

  /** A class may hold a slash, and what looks like a comment's opener. */
  lemma {:induction false} ClassOfSlashesSurvives(alnum: char -> bool)
    requires !alnum('=')
    ensures Masked(alnum, CLASS_OF_SLASHES) == CLASS_OF_SLASHES
  {
    var s := CLASS_OF_SLASHES;
    CodeRun(alnum, s, 0, 2);
    assert !AfterValue(alnum, s, 2);
    assert InClass(s, 3, 4) && InClass(s, 3, 5) && InClass(s, 3, 6) && !InClass(s, 3, 7);
    RegexLiteralSurvives(alnum, s, 2, 7);
    var m := Masked(alnum, s);
    SlicesJoin(m, s, 0, 2, 8);
    assert m == m[0..8] && s == s[0..8];
  }

  // ----- interpolations -----

  predicate Brace(s: string, p: nat, k: nat, c: char)
    requires p <= k
  {
    IsAt(s, k, c) && !Escaped(s, p, k)
  }

  /** Opening minus closing braces over `[p, k)`, escapes aside. */
  function Nesting(s: string, p: nat, k: nat): int
    requires p <= k <= |s|
  {
    if k == p then 0
    else Nesting(s, p, k - 1) + (if Brace(s, p, k - 1, '{') then 1 else if Brace(s, p, k - 1, '}') then -1 else 0)
  }

  /** `e` holds the brace that closes the interpolation whose text starts at `p`. */
  ghost predicate ClosesInterpolation(s: string, p: nat, e: nat) {
    && p <= e < |s|
    && Brace(s, p, e, '}') && Nesting(s, p, e) == 0
    && forall k :: p <= k < e && Brace(s, p, k, '}') ==> Nesting(s, p, k) != 0
  }

  predicate Inside(mode: Mode) {
    mode.Interp? || mode.InterpEscape?
  }

  ghost predicate StaysInside(alnum: char -> bool, s: string, p: nat, e: nat) {
    p <= e <= |s| && forall k :: p <= k <= e ==> Inside(ModeAt(alnum, s, k))
  }

  ghost predicate NoNestedBrace(s: string, p: nat, e: nat) {
    forall k :: p <= k < e ==> !Brace(s, p, k, '{')
  }

  /** While the scanner stays inside, its depth is the nesting, and once over zero it stays so. */
  lemma {:induction false} DepthIsNesting(alnum: char -> bool, s: string, p: nat, k: nat)
    requires p <= |s| && ModeAt(alnum, s, p) == Interp(0) && StaysInside(alnum, s, p, k)
    ensures var d := Nesting(s, p, k);
            && d >= 0 && (d == 0 <==> NoNestedBrace(s, p, k))
            && ModeAt(alnum, s, k) == if Escaped(s, p, k) then InterpEscape(d) else Interp(d)
    decreases k
  {
    if k > p {
      DepthIsNesting(alnum, s, p, k - 1);
      assert Inside(ModeAt(alnum, s, k));
      assert NoNestedBrace(s, p, k) <==> NoNestedBrace(s, p, k - 1) && !Brace(s, p, k - 1, '{');
    }
  }

  lemma {:induction false} StaysWithoutNesting(alnum: char -> bool, s: string, p: nat, e: nat, k: nat)
    requires p <= |s| && ModeAt(alnum, s, p) == Interp(0) && ClosesInterpolation(s, p, e) && NoNestedBrace(s, p, e)
    requires p <= k <= e
    ensures StaysInside(alnum, s, p, k)
    decreases k
  {
    if k > p {
      StaysWithoutNesting(alnum, s, p, e, k - 1);
      DepthIsNesting(alnum, s, p, k - 1);
      assert !Brace(s, p, k - 1, '{');
    }
  }

  /** The scanner is still in the interpolation at its closing brace, and so returns to the
      template there, exactly when no brace is opened inside it: a nested pair ends it early. */
  lemma {:induction false} InterpolationEndsAtItsBrace(alnum: char -> bool, s: string, p: nat, e: nat)
    requires p <= |s| && ModeAt(alnum, s, p) == Interp(0) && ClosesInterpolation(s, p, e)
    ensures StaysInside(alnum, s, p, e) <==> NoNestedBrace(s, p, e)
    ensures NoNestedBrace(s, p, e) ==> ModeAt(alnum, s, e + 1) == Str('`')
  {
    if NoNestedBrace(s, p, e) {
      StaysWithoutNesting(alnum, s, p, e, e);
    }
    if StaysInside(alnum, s, p, e) {
      DepthIsNesting(alnum, s, p, e);
    }
  }

  /** Where the scanner does leave an interpolation: at the first closing brace that brings the nesting
      back to zero or below, one that is not escaped. */
  lemma {:induction false} InterpolationLeavesIff(alnum: char -> bool, s: string, p: nat, k: nat)
    requires k < |s| && p <= |s| && ModeAt(alnum, s, p) == Interp(0) && StaysInside(alnum, s, p, k)
    ensures !Inside(ModeAt(alnum, s, k + 1)) <==> s[k] == '}' && !Escaped(s, p, k) && Nesting(s, p, k) <= 1
    ensures !Inside(ModeAt(alnum, s, k + 1)) ==> ModeAt(alnum, s, k + 1) == Str('`')
    ensures Masked(alnum, s)[p..k + 1] == s[p..k + 1]
  {
    DepthIsNesting(alnum, s, p, k);
    SliceSurvives(alnum, s, p, k + 1);
  }

  const NESTED_BRACES := "`${{}}`"

  /** A pair of braces inside an interpolation: at the brace that closes the interpolation the
      scanner is already back in the template. */
  lemma {:induction false} NestedBracesLeaveEarly(alnum: char -> bool)
    ensures ModeAt(alnum, NESTED_BRACES, 3) == Interp(0) && ClosesInterpolation(NESTED_BRACES, 3, 5)
    ensures ModeAt(alnum, NESTED_BRACES, 5) == Str('`')
  {
    var s := NESTED_BRACES;
    assert ModeAt(alnum, s, 0) == Code;
    assert ModeAt(alnum, s, 1) == Str('`');
    assert ModeAt(alnum, s, 2) == Dollar;
    assert ModeAt(alnum, s, 3) == Interp(0);
    assert ModeAt(alnum, s, 4) == Interp(1);
    assert !Escaped(s, 3, 3) && !Escaped(s, 3, 4) && !Escaped(s, 3, 5);
    assert Nesting(s, 3, 3) == 0 && Nesting(s, 3, 4) == 1 && Nesting(s, 3, 5) == 0;
  }

  // ----- the look-behind -----

  predicate IsBlank(c: char) {
    c == ' ' || c == '\t'
  }

  /** What `str.isalnum` says of the characters a comment leaves behind. */
  predicate IsAlnum(alnum: char -> bool) {
    !alnum('/') && !alnum('\n')
  }

  /** The last character before `k` that is no blank or tab closes a block comment. */
  predicate AfterComment(alnum: char -> bool, s: string, k: nat)
    requires k <= |s|
  {
    k > 0 && if IsBlank(s[k - 1]) then AfterComment(alnum, s, k - 1) else ModeAt(alnum, s, k - 1) == BlockClose
  }

  predicate InComment(mode: Mode) {
    mode.LineComment? || mode.BlockOpen? || mode.Block? || mode.BlockClose?
  }

  /** Before a character of code that is no newline: the source and the masked text look the same
      from there, unless a block comment comes first. */
  lemma {:induction false} LooksTheSame(alnum: char -> bool, s: string, k: nat)
    requires IsAlnum(alnum) && k < |s| && ModeAt(alnum, s, k) == Code && s[k] != '\n'
    ensures AfterComment(alnum, s, k) ==> !AfterValue(alnum, s, k)
    ensures !AfterComment(alnum, s, k) ==> (AfterValue(alnum, s, k) <==> AfterValue(alnum, Masked(alnum, s), k))
    decreases k
  {
    if k > 0 {
      if ModeAt(alnum, s, k - 1) == BlockClose {
        AfterCloser(alnum, s, k - 1);
      } else {
        ShownBefore(alnum, s, k - 1);
        LookPast(alnum, s, Masked(alnum, s), k - 1);
        if IsBlank(s[k - 1]) {
          LooksTheSame(alnum, s, k - 1);
        }
      }
    }
  }

  lemma AfterCloser(alnum: char -> bool, s: string, k: nat)
    requires IsAlnum(alnum) && k < |s| && ModeAt(alnum, s, k) == BlockClose
    ensures AfterComment(alnum, s, k + 1) && !AfterValue(alnum, s, k + 1)
  {
  }

  lemma LookPast(alnum: char -> bool, s: string, m: string, k: nat)
    requires k < |s| && k < |m| && s[k] == m[k] && ModeAt(alnum, s, k) != BlockClose
    ensures !IsBlank(s[k]) ==>
      !AfterComment(alnum, s, k + 1) && (AfterValue(alnum, s, k + 1) <==> AfterValue(alnum, m, k + 1))
    ensures IsBlank(s[k]) ==> (AfterComment(alnum, s, k + 1) <==> AfterComment(alnum, s, k))
    ensures IsBlank(s[k]) ==> (AfterValue(alnum, s, k + 1) <==> AfterValue(alnum, s, k))
    ensures IsBlank(s[k]) ==> (AfterValue(alnum, m, k + 1) <==> AfterValue(alnum, m, k))
  {
  }

  /** The character before a character of code that is no newline is shown, unless it closes a comment. */
  lemma ShownBefore(alnum: char -> bool, s: string, k: nat)
    requires k + 1 < |s| && ModeAt(alnum, s, k + 1) == Code && s[k + 1] != '\n' && ModeAt(alnum, s, k) != BlockClose
    ensures Masked(alnum, s)[k] == s[k]
    ensures IsBlank(s[k]) ==> ModeAt(alnum, s, k) == Code
  {
    MaskedAt(alnum, s, k);
    QuotesOnly(alnum, s, k);
  }

  lemma {:induction false} QuotesOnly(alnum: char -> bool, s: string, k: nat)
    requires k <= |s|
    ensures var mode := ModeAt(alnum, s, k); mode.Str? || mode.StrEscape? ==> IsQuote(mode.quote)
  {
    if k > 0 {
      QuotesOnly(alnum, s, k - 1);
    }
  }

  /** The two look-behinds: a slash in code is judged alike on the source and on the masked text
      unless it follows a block comment before which the masked text ends a value. */
  lemma LookbehindsAgreeIff(alnum: char -> bool, s: string, k: nat)
    requires IsAlnum(alnum) && k < |s| && ModeAt(alnum, s, k) == Code && s[k] == '/'
    ensures (AfterValue(alnum, s, k) <==> AfterValue(alnum, Masked(alnum, s), k))
      <==> !(AfterComment(alnum, s, k) && AfterValue(alnum, Masked(alnum, s), k))
  {
    LooksTheSame(alnum, s, k);
  }

  /** On the masked text a block comment is looked through, to what comes before it, exactly when it
      has no newline. */
  lemma {:induction false} CommentIsLookedThrough(alnum: char -> bool, s: string, o: nat, k: nat)
    requires IsAlnum(alnum) && o < k <= |s| && InCommentSpan(alnum, s, o, k - 1)
    ensures AfterValue(alnum, Masked(alnum, s), k)
      <==> '\n' !in s[o..k] && AfterValue(alnum, Masked(alnum, s), o)
    decreases k
  {
    MaskedAt(alnum, s, k - 1);
    CommentRun(alnum, s, o, k - 1);
    assert s[o..k] == s[o..k - 1] + [s[k - 1]];
    if k - 1 > o {
      CommentIsLookedThrough(alnum, s, o, k - 1);
    }
  }

  const DIVISION_AFTER_COMMENT := "a/**//b//c"

  /** A division after a comment is taken for a regex.  The line comment that follows stays, and
      masking once more takes it away. */
  lemma {:induction false} DivisionAfterComment(alnum: char -> bool)
    requires IsAlnum(alnum) && alnum('a')
    ensures Masked(alnum, DIVISION_AFTER_COMMENT) == "a    /b//c"
    ensures Masked(alnum, "a    /b//c") == "a    /b   "
  {
    FirstScan(alnum);
    SecondScan(alnum);
  }

  lemma {:induction false} FirstScan(alnum: char -> bool)
    requires IsAlnum(alnum)
    ensures Masked(alnum, DIVISION_AFTER_COMMENT) == "a    /b//c"
  {
    var s := DIVISION_AFTER_COMMENT;
    MaskedChars(alnum, s);
    assert ModeAt(alnum, s, 0) == Code;
    assert ModeAt(alnum, s, 1) == Code;
    assert ModeAt(alnum, s, 2) == BlockOpen;
    assert ModeAt(alnum, s, 3) == Block;
    assert ModeAt(alnum, s, 4) == BlockClose;
    assert ModeAt(alnum, s, 5) == Code && !AfterValue(alnum, s, 5);
    assert ModeAt(alnum, s, 6) == Regex;
    assert ModeAt(alnum, s, 7) == Regex;
    assert ModeAt(alnum, s, 8) == Code && !AfterValue(alnum, s, 8);
    assert ModeAt(alnum, s, 9) == Regex;
  }

  lemma {:induction false} SecondScan(alnum: char -> bool)
    requires alnum('a')
    ensures Masked(alnum, "a    /b//c") == "a    /b   "
  {
    var m := "a    /b//c";
    MaskedChars(alnum, m);
    assert ModeAt(alnum, m, 0) == Code;
    assert ModeAt(alnum, m, 1) == Code && AfterValue(alnum, m, 1);
    assert ModeAt(alnum, m, 2) == Code && AfterValue(alnum, m, 2);
    assert ModeAt(alnum, m, 3) == Code && AfterValue(alnum, m, 3);
    assert ModeAt(alnum, m, 4) == Code && AfterValue(alnum, m, 4);
    assert ModeAt(alnum, m, 5) == Code && AfterValue(alnum, m, 5);
    assert ModeAt(alnum, m, 6) == Code;
    assert ModeAt(alnum, m, 7) == Code;
    assert ModeAt(alnum, m, 8) == LineComment;
    assert ModeAt(alnum, m, 9) == LineComment;
  }

  // ----- masking twice -----

  /** A slash of code that the source makes a regex and the masked text a division. */
  predicate Disagrees(alnum: char -> bool, s: string, k: nat) {
    && k < |s| && ModeAt(alnum, s, k) == Code && s[k] == '/' && !OpensComment(s, k)
    && AfterValue(alnum, s, k) != AfterValue(alnum, Masked(alnum, s), k)
  }

  function FirstFrom(p: nat -> bool, i: nat, n: nat): (k: nat)
    requires i <= n
    ensures i <= k <= n
    ensures k < n ==> p(k)
    ensures forall j: nat :: i <= j < k ==> !p(j)
    decreases n - i
  {
    if i == n || p(i) then i else FirstFrom(p, i + 1, n)
  }

  function Disagreements(alnum: char -> bool, s: string): nat -> bool {
    (k: nat) => Disagrees(alnum, s, k)
  }

  /** The first such slash, or the length. */
  function FirstDisagreement(alnum: char -> bool, s: string): (k: nat)
    ensures k <= |s|
  {
    FirstFrom(Disagreements(alnum, s), 0, |s|)
  }

  lemma FirstDisagrees(alnum: char -> bool, s: string)
    ensures FirstDisagreement(alnum, s) < |s| ==> Disagrees(alnum, s, FirstDisagreement(alnum, s))
  {
    assert FirstDisagreement(alnum, s) < |s| ==> Disagreements(alnum, s)(FirstDisagreement(alnum, s));
  }

  lemma AgreesBefore(alnum: char -> bool, s: string, k: nat)
    requires k < FirstDisagreement(alnum, s)
    ensures !Disagreements(alnum, s)(k)
  {
  }

  function Shown(mode: Mode): Mode {
    if InComment(mode) then Code else mode
  }

  ghost predicate ScannedAlike(alnum: char -> bool, s: string, k: nat) {
    k <= |s| && ModeAt(alnum, Masked(alnum, s), k) == Shown(ModeAt(alnum, s, k))
  }

  /** Up to the first disagreement, scanning the masked text is scanning the source, with code in
      place of the comments. */
  lemma {:induction false} ScansAlike(alnum: char -> bool, s: string, k: nat)
    requires k <= FirstDisagreement(alnum, s)
    ensures ScannedAlike(alnum, s, k)
  {
    if k == 0 {
      StartsAlike(alnum, s);
    } else {
      ScansAlike(alnum, s, k - 1);
      AgreesBefore(alnum, s, k - 1);
      StepsAlike(alnum, s, k - 1);
    }
  }

  lemma StartsAlike(alnum: char -> bool, s: string)
    ensures ScannedAlike(alnum, s, 0)
  {
  }

  lemma StepsAlike(alnum: char -> bool, s: string, k: nat)
    requires k < |s| && !Disagreements(alnum, s)(k) && ScannedAlike(alnum, s, k)
    ensures ScannedAlike(alnum, s, k + 1)
  {
    MaskedAt(alnum, s, k);
    assert !Disagrees(alnum, s, k);
    if IsComment(alnum, s, k) {
      CommentStep(alnum, s, k);
    } else {
      SameAhead(alnum, s, k);
      ShownStep(alnum, s, Masked(alnum, s), k, ModeAt(alnum, s, k));
    }
  }

  /** One step on a comment character: the source stays in the comment or leaves it, and the masked
      text stays in code. */
  lemma CommentStep(alnum: char -> bool, s: string, k: nat)
    requires k < |s| && IsComment(alnum, s, k)
    ensures Shown(ModeAt(alnum, s, k)) == Code == Shown(ModeAt(alnum, s, k + 1))
    ensures Next(alnum, Masked(alnum, s), k, Code) == Code
  {
    MaskedAt(alnum, s, k);
    var c := Masked(alnum, s)[k];
    assert c == ' ' || c == '\n';
  }

  /** One step on any other character. */
  lemma ShownStep(alnum: char -> bool, s: string, m: string, k: nat, mode: Mode)
    requires k < |s| && k < |m| && m[k] == s[k] && !InComment(mode) && (mode == Code ==> !OpensComment(s, k))
    requires mode == Code && s[k] == '/' ==>
      !OpensComment(m, k) && (AfterValue(alnum, s, k) <==> AfterValue(alnum, m, k))
    requires mode == Str('`') && s[k] == '$' ==> (IsAt(s, k + 1, '{') <==> IsAt(m, k + 1, '{'))
    ensures Next(alnum, m, k, mode) == Next(alnum, s, k, mode) && !InComment(Next(alnum, s, k, mode))
  {
  }

  /** What the scanner looks for ahead is the same on the masked text, where it looks. */
  lemma SameAhead(alnum: char -> bool, s: string, k: nat)
    requires k < |s| && !IsComment(alnum, s, k)
    ensures ModeAt(alnum, s, k) == Code && s[k] == '/' ==> !OpensComment(Masked(alnum, s), k)
    ensures ModeAt(alnum, s, k) == Str('`') && s[k] == '$' ==>
      (IsAt(s, k + 1, '{') <==> IsAt(Masked(alnum, s), k + 1, '{'))
  {
    if k + 1 < |s| {
      MaskedAt(alnum, s, k + 1);
    }
    MaskedAt(alnum, s, k);
  }

  /** Masking is idempotent exactly when, scanned from the first disagreement on, the masked text has
      no comment left. */
  lemma {:induction false} MaskingIsIdempotentIff(alnum: char -> bool, s: string)
    ensures var m := Masked(alnum, s);
            Masked(alnum, m) == m <==>
            forall k :: FirstDisagreement(alnum, s) <= k < |m| && ModeAt(alnum, m, k) == Code ==> !OpensComment(m, k)
  {
    var m := Masked(alnum, s);
    if k :| FirstDisagreement(alnum, s) <= k < |m| && ModeAt(alnum, m, k) == Code && OpensComment(m, k) {
      MaskedAt(alnum, m, k);
    } else {
      forall k | 0 <= k < |m|
        ensures Masked(alnum, m)[k] == m[k]
      {
        MaskedAt(alnum, m, k);
        if IsComment(alnum, m, k) {
          var o := OpenerOf(alnum, m, k);
          NoneBefore(alnum, s, o);
        }
      }
    }
  }

  lemma NoneBefore(alnum: char -> bool, s: string, o: nat)
    requires o < |s| && ModeAt(alnum, Masked(alnum, s), o) == Code && OpensComment(Masked(alnum, s), o)
    ensures FirstDisagreement(alnum, s) <= o
  {
    MaskedAt(alnum, s, o);
    if o < FirstDisagreement(alnum, s) {
      ScansAlike(alnum, s, o);
      SameAhead(alnum, s, o);
    }
  }

  /** So it is idempotent when every slash of code is judged alike on the source and the masked text. */
  lemma AgreementIsIdempotent(alnum: char -> bool, s: string)
    requires forall k :: 0 <= k < |s| ==> !Disagrees(alnum, s, k)
    ensures Masked(alnum, Masked(alnum, s)) == Masked(alnum, s)
  {
    FirstDisagrees(alnum, s);
    MaskingIsIdempotentIff(alnum, s);
  }

  predicate StartAlike(s: string, t: string, n: nat) {
    n <= |s| && n <= |t| && s[..n] == t[..n]
  }

  lemma {:induction false} SameBehind(alnum: char -> bool, s: string, t: string, k: nat)
    requires StartAlike(s, t, k)
    ensures AfterValue(alnum, s, k) == AfterValue(alnum, t, k)
  {
    if k > 0 {
      assert s[k - 1] == s[..k][k - 1] == t[k - 1];
      assert s[..k - 1] == s[..k][..k - 1] == t[..k - 1];
      SameBehind(alnum, s, t, k - 1);
    }
  }

  /** The mode before a character depends on the text up to that character. */
  lemma {:induction false} SameModes(alnum: char -> bool, s: string, t: string, k: nat)
    requires StartAlike(s, t, k + 1)
    ensures ModeAt(alnum, s, k) == ModeAt(alnum, t, k)
  {
    if k > 0 {
      assert s[..k] == s[..k + 1][..k] == t[..k];
      SameModes(alnum, s, t, k - 1);
      SameBehind(alnum, s, t, k - 1);
      assert forall j :: 0 <= j <= k ==> s[j] == s[..k + 1][j] == t[j];
    }
  }

  lemma MaskedAlike(alnum: char -> bool, s: string, t: string, k: nat)
    requires StartAlike(s, t, k + 1)
    ensures StartAlike(Masked(alnum, s), Masked(alnum, t), k)
  {
    var a, b := Masked(alnum, s), Masked(alnum, t);
    forall j | 0 <= j < k ensures a[j] == b[j] {
      MaskedAt(alnum, s, j);
      MaskedAt(alnum, t, j);
      assert s[..j + 1] == s[..k + 1][..j + 1] == t[..j + 1];
      SameModes(alnum, s, t, j);
      assert forall i :: 0 <= i <= k ==> s[i] == s[..k + 1][i] == t[i];
    }
  }

  /** The condition is not too strong: at the first disagreement of a text, a text that goes on
      another way is not masked for good in one go. */
  lemma {:induction false} DisagreementMatters(alnum: char -> bool, s: string, k: nat)
    requires k < |s| && k == FirstDisagreement(alnum, s) && IsAlnum(alnum)
    ensures var t := s[..k] + "/b//c"; Masked(alnum, Masked(alnum, t)) != Masked(alnum, t)
  {
    var t := s[..k] + "/b//c";
    FirstDisagrees(alnum, s);
    LooksTheSame(alnum, s, k);
    FirstLook(alnum, s, t, k);
    FirstDisagreementShown(alnum, s, k);
    SecondLook(alnum, Masked(alnum, s), Masked(alnum, t), k);
  }

  /** Another text that starts with the slash of `s` at `k`, a regex there: nothing more is masked. */
  lemma FirstLook(alnum: char -> bool, s: string, t: string, k: nat)
    requires k < |s| && s[k] == '/' && ModeAt(alnum, s, k) == Code && !AfterValue(alnum, s, k) && IsAlnum(alnum)
    requires t == s[..k] + "/b//c"
    ensures StartAlike(Masked(alnum, s), Masked(alnum, t), k) && Masked(alnum, t)[k..] == "/b//c"
  {
    assert s[..k + 1] == s[..k] + [s[k]] == t[..k + 1];
    assert t[k..] == "/b//c";
    SameModes(alnum, s, t, k);
    SameBehind(alnum, s, t, k);
    RegexRun(alnum, t, k);
    MaskedAlike(alnum, s, t, k);
  }

  /** The first disagreeing slash, on the masked text. */
  lemma FirstDisagreementShown(alnum: char -> bool, s: string, k: nat)
    requires k < |s| && k == FirstDisagreement(alnum, s)
    ensures var m := Masked(alnum, s);
            m[k] == '/' && ModeAt(alnum, m, k) == Code && AfterValue(alnum, m, k) != AfterValue(alnum, s, k)
  {
    MaskedAt(alnum, s, k);
    FirstDisagrees(alnum, s);
    ScansAlike(alnum, s, k);
  }

  /** A text that starts like one with a division at `k` has it too. */
  lemma SecondLook(alnum: char -> bool, a: string, b: string, k: nat)
    requires k < |a| && a[k] == '/' && ModeAt(alnum, a, k) == Code && AfterValue(alnum, a, k)
    requires StartAlike(a, b, k) && |b| == k + 5 && b[k..] == "/b//c"
    ensures Masked(alnum, b) != b
  {
    assert b[k] == b[k..][0] == '/';
    assert a[..k + 1] == a[..k] + ['/'] == b[..k] + ['/'] == b[..k + 1];
    SameModes(alnum, a, b, k);
    SameBehind(alnum, a, b, k);
    DivisionRun(alnum, b, k);
  }

  /** `/b//c` scanned as a regex and the start of another: nothing of it is masked. */
  lemma RegexRun(alnum: char -> bool, t: string, k: nat)
    requires |t| == k + 5 && t[k..] == "/b//c" && IsAlnum(alnum)
    requires ModeAt(alnum, t, k) == Code && !AfterValue(alnum, t, k)
    ensures Masked(alnum, t)[k..] == "/b//c"
  {
    assert t[k] == t[k..][0] == '/' && t[k + 1] == t[k..][1] == 'b' && t[k + 2] == t[k..][2] == '/';
    assert t[k + 3] == t[k..][3] == '/' && t[k + 4] == t[k..][4] == 'c';
    assert ModeAt(alnum, t, k + 1) == Regex;
    assert ModeAt(alnum, t, k + 2) == Regex;
    assert ModeAt(alnum, t, k + 3) == Code && !AfterValue(alnum, t, k + 3);
    assert ModeAt(alnum, t, k + 4) == Regex;
    SliceSurvives(alnum, t, k, k + 5);
    assert Masked(alnum, t)[k..] == Masked(alnum, t)[k..k + 5] && t[k..] == t[k..k + 5];
  }

  /** The same scanned as divisions: a comment starts at its third character. */
  lemma DivisionRun(alnum: char -> bool, t: string, k: nat)
    requires |t| == k + 5 && t[k..] == "/b//c"
    requires ModeAt(alnum, t, k) == Code && AfterValue(alnum, t, k)
    ensures Masked(alnum, t) != t
  {
    assert t[k] == t[k..][0] == '/' && t[k + 1] == t[k..][1] == 'b' && t[k + 2] == t[k..][2] == '/';
    assert t[k + 3] == t[k..][3] == '/';
    assert ModeAt(alnum, t, k + 1) == Code;
    assert ModeAt(alnum, t, k + 2) == Code;
    assert IsComment(alnum, t, k + 2);
    MaskedAt(alnum, t, k + 2);
  }

  // ----- the scanner -----

  /** The script's `state`: in code, in a string, or in a template's interpolation. */
  datatype State = InCode | InString(quote: char) | InInterpolation

  function HeadMode(state: State, depth: nat): Mode {
    match state
    case InCode => Code
    case InString(q) => Str(q)
    case InInterpolation => Interp(depth)
  }

  method OpensRegex(alnum: char -> bool, s: string, at: nat) returns (opens: bool)
    requires at < |s|
    ensures opens == !AfterValue(alnum, s, at)
  {
    var k := at - 1;
    while k >= 0 && (s[k] == ' ' || s[k] == '\t')
      invariant -1 <= k < at
      invariant AfterValue(alnum, s, k + 1) == AfterValue(alnum, s, at)
    {
      k := k - 1;
    }
    if k < 0 {
      return true;
    }
    return !EndsValue(alnum, s[k]);
  }

  /** `source.find("\n", i)`, with the length for "not found". */
  method FindNewline(s: string, i: nat) returns (end: nat)
    requires i <= |s|
    ensures i <= end <= |s|
    ensures forall j :: i <= j < end ==> s[j] != '\n'
    ensures end < |s| ==> s[end] == '\n'
  {
    end := i;
    while end < |s| && s[end] != '\n'
      invariant i <= end <= |s|
      invariant forall j :: i <= j < end ==> s[j] != '\n'
    {
      end := end + 1;
    }
  }

  /** The end of a block comment whose opener is at `i`: past the first closer, or the length. */
  method FindBlockEnd(s: string, i: nat) returns (end: nat)
    requires i + 2 <= |s|
    ensures i + 2 <= end <= |s|
    ensures forall j :: i + 2 <= j < end - 2 ==> !ClosesBlock(s, j)
    ensures end < |s| ==> end >= i + 4 && ClosesBlock(s, end - 2)
  {
    var at := i + 2;
    while at < |s|
      invariant i + 2 <= at <= |s|
      invariant forall j :: i + 2 <= j < at ==> !ClosesBlock(s, j)
    {
      if ClosesBlock(s, at) {
        return at + 2;
      }
      at := at + 1;
    }
    end := |s|;
  }

  method Blank(out: array<char>, start: nat, end: nat)
    requires start <= end <= out.Length
    modifies out
    ensures forall k :: 0 <= k < out.Length ==>
      (out[k] == if start <= k < end && old(out[k]) != '\n' then ' ' else old(out[k]))
  {
    for k := start to end
      invariant forall j :: 0 <= j < out.Length ==>
        (out[j] == if start <= j < k && old(out[j]) != '\n' then ' ' else old(out[j]))
    {
      if out[k] != '\n' {
        out[k] := ' ';
      }
    }
  }

  /** Lines 434-436: from inside a character class to the bracket or newline that ends it. */
  method SkipClass(alnum: char -> bool, s: string, start: nat) returns (j: nat)
    requires start <= |s| && ModeAt(alnum, s, start) == Class
    ensures start <= j
    ensures j < |s| ==> (s[j] == ']' || s[j] == '\n') && ModeAt(alnum, s, j) == Class
    ensures forall k :: start <= k <= j && k < |s| ==> !IsComment(alnum, s, k)
  {
    j := start;
    while j < |s| && s[j] != ']' && s[j] != '\n'
      invariant start <= j
      invariant j <= |s| ==> ModeAt(alnum, s, j) == Class
      invariant forall k :: start <= k < j && k < |s| ==> !IsComment(alnum, s, k)
    {
      assert s[j] == '\\' && j + 1 < |s| ==> ModeAt(alnum, s, j + 1) == ClassEscape;
      j := if s[j] == '\\' then j + 2 else j + 1;
    }
  }

  /** The position after a regex literal that opens at `i` (lines 425-438). */
  method SkipRegex(alnum: char -> bool, s: string, i: nat) returns (after: nat)
    requires i < |s| && ModeAt(alnum, s, i) == Code && !OpensComment(s, i)
    requires s[i] == '/' && !AfterValue(alnum, s, i)
    ensures i < after <= |s|
    ensures forall k :: i <= k < after ==> !IsComment(alnum, s, k)
    ensures after < |s| ==> ModeAt(alnum, s, after) == Code
  {
    var j := i + 1;
    while j < |s| && s[j] != '\n'
      invariant i < j <= |s| + 1
      invariant j <= |s| ==> ModeAt(alnum, s, j) == Regex
      invariant forall k :: i <= k < j && k < |s| ==> !IsComment(alnum, s, k)
    {
      if s[j] == '\\' {
        assert j + 1 < |s| ==> ModeAt(alnum, s, j + 1) == RegexEscape;
        j := j + 2;
        continue;
      }
      if s[j] == '/' {
        break;
      }
      if s[j] == '[' {
        j := SkipClass(alnum, s, j + 1);
        if j >= |s| {
          return |s|;
        }
      }
      j := j + 1;
    }
    after := if j + 1 < |s| then j + 1 else |s|;
  }

  /** One step outside plain code (lines 445-463). */
  method StepInString(alnum: char -> bool, s: string, at: nat, was: State, wasDepth: nat)
    returns (i: nat, state: State, depth: int)
    requires at < |s| && was != InCode && (was.InString? ==> IsQuote(was.quote))
    requires ModeAt(alnum, s, at) == HeadMode(was, wasDepth)
    ensures at < i <= |s| + 1 && depth >= 0 && (state.InString? ==> IsQuote(state.quote))
    ensures forall k :: at <= k < i && k < |s| ==> !IsComment(alnum, s, k)
    ensures i < |s| ==> ModeAt(alnum, s, i) == HeadMode(state, depth)
  {
    i, state, depth := at, was, wasDepth;
    var ch := s[i];
    if ch == '\\' {
      assert i + 1 < |s| ==> ModeAt(alnum, s, i + 1) == Next(alnum, s, i, HeadMode(was, wasDepth));
      i := i + 2;
      return;
    }
    if state == InString('`') && ch == '$' && IsAt(s, i + 1, '{') {
      assert ModeAt(alnum, s, i + 1) == Dollar;
      state, depth := InInterpolation, 0;
      i := i + 2;
      return;
    }
    if state == InInterpolation && ch == '{' {
      depth := depth + 1;
    } else if state == InInterpolation && ch == '}' {
      depth := depth - 1;
      if depth <= 0 {
        state, depth := InString('`'), 0;
      }
    } else if state == InString(ch) {
      state := InCode;
    }
    i := i + 1;
  }

  /** One step in code (lines 409-444). */
  method StepInCode(alnum: char -> bool, s: string, out: array<char>, at: nat)
    returns (i: nat, state: State)
    requires at < |s| && ModeAt(alnum, s, at) == Code && MaskedTo(alnum, s, out[..], at)
    modifies out
    ensures at < i <= |s| && (state.InString? ==> IsQuote(state.quote))
    ensures i < |s| ==> ModeAt(alnum, s, i) == HeadMode(state, 0)
    ensures MaskedTo(alnum, s, out[..], i)
  {
    state := InCode;
    if s[at] == '/' && IsAt(s, at + 1, '/') {
      i := MaskLineComment(alnum, s, out, at);
    } else if s[at] == '/' && IsAt(s, at + 1, '*') {
      i := MaskBlockComment(alnum, s, out, at);
    } else {
      i, state := PassCode(alnum, s, at);
      NothingToBlank(alnum, s, out[..], at, i);
    }
  }

  /** A step in code where no comment opens: a regex literal, a quote or any other character. */
  method PassCode(alnum: char -> bool, s: string, at: nat) returns (i: nat, state: State)
    requires at < |s| && ModeAt(alnum, s, at) == Code && !OpensComment(s, at)
    ensures at < i <= |s| && (state.InString? ==> IsQuote(state.quote))
    ensures i < |s| ==> ModeAt(alnum, s, i) == HeadMode(state, 0)
    ensures forall k :: at <= k < i ==> !IsComment(alnum, s, k)
  {
    state := InCode;
    if s[at] == '/' {
      var regex := OpensRegex(alnum, s, at);
      if regex {
        i := SkipRegex(alnum, s, at);
        return;
      }
    }
    PlainStep(alnum, s, at);
    if IsQuote(s[at]) {
      state := InString(s[at]);
    }
    i := at + 1;
  }

  lemma PlainStep(alnum: char -> bool, s: string, i: nat)
    requires i < |s| && ModeAt(alnum, s, i) == Code && !OpensComment(s, i)
    requires s[i] == '/' ==> AfterValue(alnum, s, i)
    ensures !IsComment(alnum, s, i)
    ensures ModeAt(alnum, s, i + 1) == if IsQuote(s[i]) then Str(s[i]) else Code
  {
  }

  method MaskJsComments(alnum: char -> bool, source: string) returns (masked: string)
    ensures masked == Masked(alnum, source)
  {
    var n := |source|;
    var out := new char[n](k requires 0 <= k < n => source[k]);
    var i := 0;
    var state: State, depth: int := InCode, 0;
    while i < n
      invariant i <= n + 1 && depth >= 0
      invariant state.InString? ==> IsQuote(state.quote)
      invariant i < n ==> ModeAt(alnum, source, i) == HeadMode(state, depth)
      invariant MaskedTo(alnum, source, out[..], i)
    {
      if state == InCode {
        i, state := StepInCode(alnum, source, out, i);
        depth := 0;
      } else {
        ghost var from := i;
        i, state, depth := StepInString(alnum, source, i, state, depth);
        NothingToBlank(alnum, source, out[..], from, i);
      }
    }
    masked := out[..];
  }

  /** The buffer is masked before `i` and untouched from `i` on. */
  ghost predicate MaskedTo(alnum: char -> bool, s: string, out: string, i: nat) {
    |out| == |s| && forall k :: 0 <= k < |s| ==> out[k] == if k < i then Masked(alnum, s)[k] else s[k]
  }

  lemma NothingToBlank(alnum: char -> bool, s: string, out: string, i: nat, j: nat)
    requires MaskedTo(alnum, s, out, i) && i <= j
    requires forall k :: i <= k < j && k < |s| ==> !IsComment(alnum, s, k)
    ensures MaskedTo(alnum, s, out, j)
  {
    MaskedChars(alnum, s);
  }

  method MaskLineComment(alnum: char -> bool, s: string, out: array<char>, at: nat) returns (end: nat)
    requires at + 1 < |s| && ModeAt(alnum, s, at) == Code && s[at] == '/' && s[at + 1] == '/'
    requires MaskedTo(alnum, s, out[..], at)
    modifies out
    ensures at < end <= |s| && MaskedTo(alnum, s, out[..], end)
    ensures end < |s| ==> ModeAt(alnum, s, end) == Code
  {
    MaskedChars(alnum, s);
    end := FindNewline(s, at);
    LineSpan(alnum, s, at, end);
    Blank(out, at, end);
  }

  method MaskBlockComment(alnum: char -> bool, s: string, out: array<char>, at: nat) returns (end: nat)
    requires at + 1 < |s| && ModeAt(alnum, s, at) == Code && s[at] == '/' && s[at + 1] == '*'
    requires MaskedTo(alnum, s, out[..], at)
    modifies out
    ensures at < end <= |s| && MaskedTo(alnum, s, out[..], end)
    ensures end < |s| ==> ModeAt(alnum, s, end) == Code
  {
    MaskedChars(alnum, s);
    end := FindBlockEnd(s, at);
    BlockSpan(alnum, s, at, end);
    Blank(out, at, end);
  }

  /** A line comment that ends before `end`: all of it is comment, and code resumes there. */
  lemma LineSpan(alnum: char -> bool, s: string, o: nat, end: nat)
    requires o + 1 < |s| && ModeAt(alnum, s, o) == Code && s[o] == '/' && s[o + 1] == '/'
    requires o <= end <= |s| && (forall j :: o <= j < end ==> s[j] != '\n') && (end < |s| ==> s[end] == '\n')
    ensures o + 2 <= end
    ensures forall k :: o <= k < end ==> IsComment(alnum, s, k)
    ensures end < |s| ==> ModeAt(alnum, s, end) == Code
  {
    forall k: nat | o <= k < end
      ensures IsComment(alnum, s, k) && (k > o ==> ModeAt(alnum, s, k) == LineComment)
    {
      CommentRun(alnum, s, o, k);
    }
  }

  /** A block comment that ends before `end`: all of it is comment, and code resumes there. */
  lemma BlockSpan(alnum: char -> bool, s: string, o: nat, end: nat)
    requires o + 2 <= end <= |s| && ModeAt(alnum, s, o) == Code && s[o] == '/' && s[o + 1] == '*'
    requires forall j :: o + 2 <= j < end - 2 ==> !ClosesBlock(s, j)
    requires end < |s| ==> end >= o + 4 && ClosesBlock(s, end - 2)
    ensures forall k :: o <= k < end ==> IsComment(alnum, s, k)
    ensures end < |s| ==> ModeAt(alnum, s, end) == Code
  {
    forall k: nat | o <= k < end
      ensures IsComment(alnum, s, k)
    {
      CommentRun(alnum, s, o, k);
    }
    if end < |s| {
      CommentRun(alnum, s, o, end - 1);
    }
  }
}
