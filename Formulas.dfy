/** The math-span rewriter that runs over the converted text before it is
    shown and exported (`PDFToTextConverter.process_formulas`): every
    `$…$` span found by `re.sub(r'\$(.+?)\$', …, flags=re.DOTALL)` has its
    interior rewritten into LaTeX spelling, everything else is copied. */
module Formulas {
  import opened Text

  datatype Option<T> = None | Some(value: T)

  /** The regex class `\d`, taken as the ASCII digits. */
  predicate IsDigit(c: char) {
    '0' <= c <= '9'
  }

  /** The text that opens a rewritten square root. */
  const SqrtOpen: string := "\\sqrt{"

  /** Length of the greedy `\d+` match at the start of `s` (0 if none);
      `DigitRunMaximal` says what it measures. */
  function DigitRun(s: string): (n: nat)
    ensures n <= |s|
  {
    if s != [] && IsDigit(s[0]) then 1 + DigitRun(s[1..]) else 0
  }

  /** The digit run is all digits and stops before a non-digit or the end. */
  lemma {:induction false} DigitRunMaximal(s: string)
    ensures forall k :: 0 <= k < DigitRun(s) ==> IsDigit(s[k])
    ensures DigitRun(s) < |s| ==> !IsDigit(s[DigitRun(s)])
  {
    if s != [] && IsDigit(s[0]) {
      DigitRunMaximal(s[1..]);
    }
  }

  /** Length of the greedy `[^}]+` run at the start of `s`;
      `NonBraceRunMaximal` says what it measures. */
  function NonBraceRun(s: string): (n: nat)
    ensures n <= |s|
  {
    if s != [] && s[0] != '}' then 1 + NonBraceRun(s[1..]) else 0
  }

  /** The run holds no `}` and stops before a `}` or the end. */
  lemma {:induction false} NonBraceRunMaximal(s: string)
    ensures forall k :: 0 <= k < NonBraceRun(s) ==> s[k] != '}'
    ensures NonBraceRun(s) < |s| ==> s[NonBraceRun(s)] == '}'
  {
    if s != [] && s[0] != '}' {
      NonBraceRunMaximal(s[1..]);
    }
  }

  /** No root sign is directly followed by a digit. */
  predicate NoRootBeforeDigit(s: string) {
    forall k :: 0 <= k < |s| - 1 && s[k] == '√' ==> !IsDigit(s[k + 1])
  }

  lemma {:induction false} NoRootBeforeDigitConcat(a: string, b: string)
    requires NoRootBeforeDigit(a) && NoRootBeforeDigit(b)
    requires a != [] && a[|a| - 1] == '√' ==> b == [] || !IsDigit(b[0])
    ensures NoRootBeforeDigit(a + b)
  {
    var s := a + b;
    forall k | 0 <= k < |s| - 1 && s[k] == '√'
      ensures !IsDigit(s[k + 1])
    {
      if k + 1 < |a| {
        assert s[k] == a[k] && s[k + 1] == a[k + 1];
      } else if k + 1 == |a| {
        assert s[k + 1] == b[0];
      } else {
        assert s[k] == b[k - |a|] && s[k + 1] == b[k - |a| + 1];
      }
    }
  }

  /** Step 2, `re.sub(r'√(\d+)', r'\\sqrt{\1}', content)`: a root sign
      followed by a maximal run of digits becomes `\sqrt{digits}`; the scan
      then resumes after the digits. */
  function SqrtDigits(s: string): string
    decreases |s|
  {
    if s == [] then []
    else if s[0] == '√' && DigitRun(s[1..]) > 0 then
      var n := DigitRun(s[1..]);
      SqrtOpen + s[1..1 + n] + "}" + SqrtDigits(s[1 + n..])
    else
      [s[0]] + SqrtDigits(s[1..])
  }

  /** The digit rewrite starts with the first character or with the
      backslash of `\sqrt`. */
  lemma {:induction false} SqrtDigitsFirst(s: string)
    requires s != []
    ensures SqrtDigits(s) != [] && (SqrtDigits(s)[0] == s[0] || SqrtDigits(s)[0] == '\\')
  {
  }

  /** After the digit rewrite no root sign is followed by a digit. */
  lemma {:induction false} SqrtDigitsDone(s: string)
    ensures NoRootBeforeDigit(SqrtDigits(s))
    decreases |s|
  {
    if s != [] {
      if s[0] == '√' && DigitRun(s[1..]) > 0 {
        var n := DigitRun(s[1..]);
        var head := SqrtOpen + s[1..1 + n] + "}";
        var rest := SqrtDigits(s[1 + n..]);
        SqrtDigitsDone(s[1 + n..]);
        DigitRunMaximal(s[1..]);
        assert forall k :: 0 <= k < |head| ==> head[k] != '√';
        NoRootBeforeDigitConcat(head, rest);
      } else {
        var rest := SqrtDigits(s[1..]);
        SqrtDigitsDone(s[1..]);
        if s[1..] != [] {
          SqrtDigitsFirst(s[1..]);
        }
        NoRootBeforeDigitConcat([s[0]], rest);
      }
    }
  }

  /** Step 3, `re.sub(r'√\{([^}]+)\}', r'\\sqrt{\1}', content)`: a root
      sign, `{`, one or more characters other than `}` and a closing `}`
      become `\sqrt{…}`; the scan then resumes after the `}`. */
  function SqrtBraces(s: string): (r: string)
    decreases |s|
  {
    if s == [] then []
    else if |s| >= 2 && s[0] == '√' && s[1] == '{' && 0 < NonBraceRun(s[2..]) < |s| - 2 then
      var n := NonBraceRun(s[2..]);
      SqrtOpen + s[2..2 + n] + "}" + SqrtBraces(s[3 + n..])
    else
      [s[0]] + SqrtBraces(s[1..])
  }

  /** A root sign followed by `n` digits and then no other root sign. */
  lemma {:induction false} SqrtDigitsOnce(s: string, n: nat)
    requires 0 < n < |s| && s[0] == '√' && DigitRun(s[1..]) == n && '√' !in s[1 + n..]
    ensures SqrtDigits(s) == SqrtOpen + s[1..1 + n] + "}" + s[1 + n..]
  {
    RootsUnchanged(s[1 + n..]);
  }

  /** Both root rewrites leave a text without root signs as it is. */
  lemma {:induction false} RootsUnchanged(s: string)
    requires '√' !in s
    ensures SqrtDigits(s) == s && SqrtBraces(s) == s
  {
    if s != [] {
      assert s[1..] == s[|s| - |s[1..]|..];
      assert '√' !in s[1..];
      RootsUnchanged(s[1..]);
      assert [s[0]] + s[1..] == s;
    }
  }

  /** Count of `x` in a three-part concatenation. */
  lemma {:induction false} CountConcat3(a: string, b: string, c: string, x: char)
    ensures Count(a + b + c, x) == Count(a, x) + Count(b, x) + Count(c, x)
  {
    CountConcat(a + b, c, x);
    CountConcat(a, b, x);
  }

  /** Replacing the text around `inner` by other text free of `x`, and the
      tail by one with as many `x`, keeps the count of `x`. */
  lemma {:induction false} SwapCount(a: string, inner: string, b: string, c: string, d: string, r1: string, r2: string, x: char)
    requires x !in a && x !in b && x !in c && x !in d
    requires Count(r1, x) == Count(r2, x)
    ensures Count(a + inner + b + r1, x) == Count(c + inner + d + r2, x)
  {
    CountZero(a, x);
    CountZero(b, x);
    CountZero(c, x);
    CountZero(d, x);
    CountConcat(a + inner + b, r1, x);
    CountConcat3(a, inner, b, x);
    CountConcat(c + inner + d, r2, x);
    CountConcat3(c, inner, d, x);
  }

  /** `s` cut around its character at `j`, with a further cut at `i`. */
  lemma {:induction false} Pieces(s: string, i: nat, j: nat)
    requires i <= j < |s|
    ensures s == s[..i] + s[i..j] + [s[j]] + s[j + 1..]
  {
    assert s[..j] == s[..i] + s[i..j];
    assert s == s[..j] + [s[j]] + s[j + 1..];
  }

  /** A text cut around the `$` at its start and a later one. */
  lemma {:induction false} SpanPieces(text: string, q: nat)
    requires 1 <= q < |text| && text[0] == '$' && text[q] == '$'
    ensures text == "$" + text[1..q] + "$" + text[q + 1..]
  {
    assert text[..q] == [text[0]] + text[1..q];
    assert text == text[..q] + [text[q]] + text[q + 1..];
  }

  /** The same first character before tails with as many `x`. */
  lemma {:induction false} ConsCount(c: char, r1: string, r2: string, x: char)
    requires Count(r1, x) == Count(r2, x)
    ensures Count([c] + r1, x) == Count([c] + r2, x)
  {
    assert ([c] + r1)[1..] == r1;
    assert ([c] + r2)[1..] == r2;
  }

  /** The digit rewrite only removes root signs and adds the letters of
      `\\sqrt{}`: any other character keeps its count. */
  lemma {:induction false} SqrtDigitsCount(s: string, x: char)
    requires x != '√' && x !in SqrtOpen && x != '}'
    ensures Count(SqrtDigits(s), x) == Count(s, x)
    decreases |s|
  {
    if s != [] {
      if s[0] == '√' && DigitRun(s[1..]) > 0 {
        SqrtDigitsCount(s[1 + DigitRun(s[1..])..], x);
        DigitRootCount(s, x);
      } else {
        SqrtDigitsCount(s[1..], x);
        ConsCount(s[0], SqrtDigits(s[1..]), s[1..], x);
        assert s == [s[0]] + s[1..];
      }
    }
  }

  /** One digit root rewritten keeps the count of `x` when the rest does. */
  lemma {:induction false} DigitRootCount(s: string, x: char)
    requires x != '√' && x !in SqrtOpen && x != '}'
    requires s != [] && s[0] == '√' && DigitRun(s[1..]) > 0
    requires var n := DigitRun(s[1..]);
      Count(SqrtDigits(s[1 + n..]), x) == Count(s[1 + n..], x)
    ensures Count(SqrtDigits(s), x) == Count(s, x)
  {
    var n := DigitRun(s[1..]);
    var digits := s[1..1 + n];
    var tail := s[1 + n..];
    assert Count(SqrtDigits(s), x) == Count(digits, x) + Count(SqrtDigits(tail), x) by {
      SqrtDigitsStep(s);
      FrameCount(SqrtOpen, digits, "}", SqrtDigits(tail), x);
    }
    assert Count(s, x) == Count(digits, x) + Count(tail, x) by {
      assert s[1..] == digits + tail;
      assert Count(s, x) == Count(s[1..], x);
      CountConcat(digits, tail, x);
    }
  }

  /** Text framed by two pieces free of `x` counts only its own `x`s. */
  lemma {:induction false} FrameCount(o: string, m: string, c: string, r: string, x: char)
    requires x !in o && x !in c
    ensures Count(o + m + c + r, x) == Count(m, x) + Count(r, x)
  {
    CountZero(o, x);
    CountZero(c, x);
    CountConcat(o + m + c, r, x);
    CountConcat3(o, m, c, x);
  }

  /** One digit root at the start of `s` is rewritten, and the scan goes on
      after its digits. */
  lemma {:induction false} SqrtDigitsStep(s: string)
    requires s != [] && s[0] == '√' && DigitRun(s[1..]) > 0
    ensures var n := DigitRun(s[1..]);
      SqrtDigits(s) == SqrtOpen + s[1..1 + n] + "}" + SqrtDigits(s[1 + n..])
  {
  }

  /** The braced rewrite only removes root signs and adds the letters of
      `\\sqrt`: any other character keeps its count. */
  lemma {:induction false} SqrtBracesCount(s: string, x: char)
    requires x != '√' && x !in SqrtOpen && x != '}'
    ensures Count(SqrtBraces(s), x) == Count(s, x)
    decreases |s|
  {
    if s != [] {
      if |s| >= 2 && s[0] == '√' && s[1] == '{' && 0 < NonBraceRun(s[2..]) < |s| - 2 {
        SqrtBracesCount(s[3 + NonBraceRun(s[2..])..], x);
        BracedRootCount(s, x);
      } else {
        SqrtBracesCount(s[1..], x);
        SqrtBracesSkip(s);
        ConsCount(s[0], SqrtBraces(s[1..]), s[1..], x);
        assert s == [s[0]] + s[1..];
      }
    }
  }

  /** One braced root rewritten keeps the count of `x` when the rest does. */
  lemma {:induction false} BracedRootCount(s: string, x: char)
    requires x != '√' && x !in SqrtOpen && x != '}'
    requires |s| >= 2 && s[0] == '√' && s[1] == '{' && 0 < NonBraceRun(s[2..]) < |s| - 2
    requires var n := NonBraceRun(s[2..]);
      Count(SqrtBraces(s[3 + n..]), x) == Count(s[3 + n..], x)
    ensures Count(SqrtBraces(s), x) == Count(s, x)
  {
    var n := NonBraceRun(s[2..]);
    var inner := s[2..2 + n];
    var tail := s[3 + n..];
    SqrtBracesStep(s);
    NonBraceRunMaximal(s[2..]);
    assert [s[2 + n]] == "}";
    Pieces(s, 2, 2 + n);
    assert s[..2] == "√{";
    assert '{' in SqrtOpen;
    SwapCount(SqrtOpen, inner, "}", "√{", "}", SqrtBraces(tail), tail, x);
  }

  /** One braced root at the start of `s` is rewritten, and the scan goes on
      after its `}`. */
  lemma {:induction false} SqrtBracesStep(s: string)
    requires |s| >= 2 && s[0] == '√' && s[1] == '{' && 0 < NonBraceRun(s[2..]) < |s| - 2
    ensures var n := NonBraceRun(s[2..]);
      SqrtBraces(s) == SqrtOpen + s[2..2 + n] + "}" + SqrtBraces(s[3 + n..])
  {
  }

  /** Where no braced root starts, the first character is copied. */
  lemma {:induction false} SqrtBracesSkip(s: string)
    requires s != []
    requires !(|s| >= 2 && s[0] == '√' && s[1] == '{' && 0 < NonBraceRun(s[2..]) < |s| - 2)
    ensures SqrtBraces(s) == [s[0]] + SqrtBraces(s[1..])
  {
  }

  /** `process_math_content`: the interior of one span rewritten in the
      fixed order π, `√digits`, `√{…}`, ≠, then every `*` deleted. */
  function RewriteMath(content: string): string
  {
    var piDone := ReplaceChar(content, 'π', "\\pi");
    var bracesDone := SqrtBraces(SqrtDigits(piDone));
    DeleteChar(ReplaceChar(bracesDone, '≠', "\\neq"), '*')
  }

  /** After rewriting, a span interior holds no π, ≠ or `*`. */
  lemma {:induction false} RewriteMathClean(content: string)
    ensures 'π' !in RewriteMath(content)
    ensures '≠' !in RewriteMath(content)
    ensures '*' !in RewriteMath(content)
  {
    var a := ReplaceChar(content, 'π', "\\pi");
    var e := SqrtBraces(SqrtDigits(a));
    var f := ReplaceChar(e, '≠', "\\neq");
    assert 'π' !in f by {
      ReplaceCharCount(content, 'π', "\\pi", '$');
      RootsKeepAbsent(a, 'π');
      ReplaceCharAbsent(e, '≠', "\\neq", 'π');
    }
    assert '≠' !in f by {
      ReplaceCharCount(e, '≠', "\\neq", 'π');
    }
    DeleteCharAbsent(f, '*', 'π');
    DeleteCharAbsent(f, '*', '≠');
    DeleteCharFacts(f, '*');
  }

  /** Neither root rewrite brings in a character other than those of
      `\\sqrt{}`. */
  lemma {:induction false} RootsKeepAbsent(a: string, x: char)
    requires x !in a && x != '√' && x !in SqrtOpen && x != '}'
    ensures x !in SqrtBraces(SqrtDigits(a))
  {
    CountZero(a, x);
    SqrtDigitsCount(a, x);
    SqrtBracesCount(SqrtDigits(a), x);
    CountZero(SqrtBraces(SqrtDigits(a)), x);
  }

  /** Rewriting a span interior neither adds nor removes a `$`. */
  lemma {:induction false} RewriteMathKeepsDollars(content: string)
    ensures Count(RewriteMath(content), '$') == Count(content, '$')
  {
    var piDone := ReplaceChar(content, 'π', "\\pi");
    var digitsDone := SqrtDigits(piDone);
    var bracesDone := SqrtBraces(digitsDone);
    var neqDone := ReplaceChar(bracesDone, '≠', "\\neq");
    ReplaceCharCount(content, 'π', "\\pi", '$');
    SqrtDigitsCount(piDone, '$');
    SqrtBracesCount(digitsDone, '$');
    ReplaceCharCount(bracesDone, '≠', "\\neq", '$');
    DeleteCharCount(neqDone, '*', '$');
  }

  /** An interior with none of the rewritten symbols is kept as it is. */
  lemma {:induction false} RewriteMathUnchanged(content: string)
    requires 'π' !in content && '√' !in content && '≠' !in content && '*' !in content
    ensures RewriteMath(content) == content
  {
    ReplaceCharNone(content, 'π', "\\pi");
    RootsUnchanged(content);
    ReplaceCharNone(content, '≠', "\\neq");
    DeleteCharFacts(content, '*');
    RewriteMathStages(content, content, content, content, content, content);
  }

  /** Index of the first `$` at or after `from`, if there is one. */
  function NextDollar(s: string, from: nat): (r: Option<nat>)
    ensures r.Some? ==> from <= r.value < |s| && s[r.value] == '$'
    decreases |s| - from
  {
    if from >= |s| then None
    else if s[from] == '$' then Some(from)
    else NextDollar(s, from + 1)
  }

  /** `NextDollar` finds the first `$`: none lies between `from` and the one
      found, and when none is found there is none at or after `from`. */
  lemma {:induction false} NextDollarFirst(s: string, from: nat)
    ensures NextDollar(s, from).Some? ==> forall k :: from <= k < NextDollar(s, from).value ==> s[k] != '$'
    ensures NextDollar(s, from).None? ==> forall k :: from <= k < |s| ==> s[k] != '$'
    decreases |s| - from
  {
    if from < |s| && s[from] != '$' {
      NextDollarFirst(s, from + 1);
    }
  }

  /** A `$` at `q` with none between `from` and it is the one found. */
  lemma {:induction false} NextDollarAt(s: string, from: nat, q: nat)
    requires from <= q < |s| && s[q] == '$'
    requires forall k :: from <= k < q ==> s[k] != '$'
    ensures NextDollar(s, from) == Some(q)
    decreases q - from
  {
    if from < q {
      NextDollarAt(s, from + 1, q);
    }
  }

  /** `process_formulas`: the left-to-right scan of `re.sub` with the
      non-greedy, newline-crossing pattern `\$(.+?)\$`. A `$` opens a span
      that closes at the first `$` at least two characters later (the
      interior needs one character); the scan resumes after the closing
      `$`. A `$` with no such closer, and everything after it, is copied. */
  function ProcessFormulas(text: string): (r: string)
    decreases |text|
  {
    if text == [] then []
    else if text[0] != '$' then [text[0]] + ProcessFormulas(text[1..])
    else match NextDollar(text, 2)
      case None => text
      case Some(q) => "$" + RewriteMath(text[1..q]) + "$" + ProcessFormulas(text[q + 1..])
  }

  /** One span at the start of the text. */
  lemma {:induction false} SpanAtStart(text: string, q: nat)
    requires text != [] && text[0] == '$' && NextDollar(text, 2) == Some(q)
    ensures ProcessFormulas(text) == "$" + RewriteMath(text[1..q]) + "$" + ProcessFormulas(text[q + 1..])
  {
  }

  // ---- The spans of a text, as an independent reading of the regex ----

  /** A piece of the text: copied verbatim, or the interior of a `$…$` span. */
  datatype Piece = Verbatim(text: string) | Span(content: string)

  /** The text split into verbatim characters and math spans, in the order
      the regex scan meets them. */
  function Tokenize(text: string): (ps: seq<Piece>)
    decreases |text|
  {
    if text == [] then []
    else if text[0] != '$' then [Verbatim([text[0]])] + Tokenize(text[1..])
    else match NextDollar(text, 2)
      case None => [Verbatim(text)]
      case Some(q) => [Span(text[1..q])] + Tokenize(text[q + 1..])
  }

  /** The text a piece was cut from. */
  function Source(p: Piece): string {
    match p
    case Verbatim(t) => t
    case Span(c) => "$" + c + "$"
  }

  /** The text the pieces were cut from. */
  function Flatten(ps: seq<Piece>): string {
    if ps == [] then [] else Source(ps[0]) + Flatten(ps[1..])
  }

  lemma {:induction false} FlattenCons(p: Piece, ps: seq<Piece>)
    ensures Flatten([p] + ps) == Source(p) + Flatten(ps)
  {
    assert ([p] + ps)[1..] == ps;
  }

  /** The pieces with every span interior rewritten. */
  function Render(ps: seq<Piece>): string {
    if ps == [] then [] else Rendered(ps[0]) + Render(ps[1..])
  }

  /** A piece as the rewriter writes it out. */
  function Rendered(p: Piece): string {
    match p
    case Verbatim(t) => t
    case Span(c) => "$" + RewriteMath(c) + "$"
  }

  lemma {:induction false} RenderCons(p: Piece, ps: seq<Piece>)
    ensures Render([p] + ps) == Rendered(p) + Render(ps)
  {
    assert ([p] + ps)[1..] == ps;
  }

  /** What `\$(.+?)\$` allows: a span interior is not empty and has no `$`
      after its first character (so the span closes at the first `$` at
      least two characters after the opening one); verbatim text has no `$`
      unless it is the unmatched tail of the text, which starts with the
      `$` that found no closer. */
  predicate PieceOk(p: Piece, last: bool) {
    match p
    case Span(c) => c != [] && forall k :: 1 <= k < |c| ==> c[k] != '$'
    case Verbatim(t) =>
      t != [] && ('$' in t ==> last && t[0] == '$' && forall k :: 2 <= k < |t| ==> t[k] != '$')
  }

  predicate WellFormed(ps: seq<Piece>) {
    forall k :: 0 <= k < |ps| ==> PieceOk(ps[k], k == |ps| - 1)
  }

  /** The tokenization loses nothing: flattening the pieces gives the
      text back. */
  lemma {:induction false} TokenizeFlattens(text: string)
    ensures Flatten(Tokenize(text)) == text
    decreases |text|
  {
    if text != [] {
      if text[0] != '$' {
        TokenizeFlattens(text[1..]);
        VerbatimFlattens(text);
      } else {
        match NextDollar(text, 2)
        case None =>
          assert Tokenize(text) == [Verbatim(text)];
          FlattenCons(Verbatim(text), []);
          assert text + [] == text;
        case Some(q) =>
          TokenizeFlattens(text[q + 1..]);
          SpanFlattens(text, q);
      }
    }
  }

  lemma {:induction false} VerbatimFlattens(text: string)
    requires text != [] && text[0] != '$'
    requires Flatten(Tokenize(text[1..])) == text[1..]
    ensures Flatten(Tokenize(text)) == text
  {
    var rest := text[1..];
    assert Tokenize(text) == [Verbatim([text[0]])] + Tokenize(rest);
    FlattenCons(Verbatim([text[0]]), Tokenize(rest));
    assert [text[0]] + rest == text;
  }

  lemma {:induction false} SpanFlattens(text: string, q: nat)
    requires text != [] && text[0] == '$' && NextDollar(text, 2) == Some(q)
    requires Flatten(Tokenize(text[q + 1..])) == text[q + 1..]
    ensures Flatten(Tokenize(text)) == text
  {
    var c := text[1..q];
    var rest := text[q + 1..];
    assert Tokenize(text) == [Span(c)] + Tokenize(rest);
    FlattenCons(Span(c), Tokenize(rest));
    SpanPieces(text, q);
  }

  /** Every piece the tokenization cuts has the shape the regex allows. */
  lemma {:induction false} TokenizeWellFormed(text: string)
    ensures WellFormed(Tokenize(text))
    decreases |text|
  {
    if text != [] {
      var ps := Tokenize(text);
      if text[0] != '$' {
        var rest := Tokenize(text[1..]);
        TokenizeWellFormed(text[1..]);
        assert ps == [Verbatim([text[0]])] + rest;
        forall k | 0 <= k < |ps| ensures PieceOk(ps[k], k == |ps| - 1) {
          if k > 0 {
            assert ps[k] == rest[k - 1];
          }
        }
      } else {
        NextDollarFirst(text, 2);
        match NextDollar(text, 2)
        case None =>
        case Some(q) =>
          var rest := Tokenize(text[q + 1..]);
          TokenizeWellFormed(text[q + 1..]);
          assert ps == [Span(text[1..q])] + rest;
          forall k | 0 <= k < |ps| ensures PieceOk(ps[k], k == |ps| - 1) {
            if k > 0 {
              assert ps[k] == rest[k - 1];
            }
          }
      }
    }
  }

  /** The rewriter is the tokenization with every span interior rewritten
      and every verbatim piece copied in place. */
  lemma {:induction false} ProcessFormulasRendersSpans(text: string)
    ensures ProcessFormulas(text) == Render(Tokenize(text))
    decreases |text|
  {
    if text != [] {
      if text[0] != '$' {
        ProcessFormulasRendersSpans(text[1..]);
        RenderCons(Verbatim([text[0]]), Tokenize(text[1..]));
      } else {
        match NextDollar(text, 2)
        case None =>
          RenderCons(Verbatim(text), []);
          assert text + [] == text;
        case Some(q) =>
          var c := text[1..q];
          var rest := text[q + 1..];
          ProcessFormulasRendersSpans(rest);
          SpanAtStart(text, q);
          RenderCons(Span(c), Tokenize(rest));
      }
    }
  }

  /** Text before the first `$` is copied in place. */
  lemma {:induction false} PlainPrefixKept(p: string, t: string)
    requires '$' !in p
    ensures ProcessFormulas(p + t) == p + ProcessFormulas(t)
    decreases |p|
  {
    if p != [] {
      var s := p + t;
      assert s[0] == p[0] && s[1..] == p[1..] + t;
      assert p[1..] == p[|p| - |p[1..]|..];
      assert '$' !in p[1..];
      PlainPrefixKept(p[1..], t);
      assert [p[0]] + p[1..] == p;
    } else {
      assert p + t == t;
    }
  }

  /** A text with no `$` is returned unchanged. */
  lemma {:induction false} NoDollarUnchanged(text: string)
    requires '$' !in text
    ensures ProcessFormulas(text) == text
  {
    PlainPrefixKept(text, []);
    assert text + [] == text;
  }

  /** A `$` that finds no closer at least two characters later passes
      through with everything after it, after the copied text before it. */
  lemma {:induction false} UnmatchedDollarPassesThrough(p: string, t: string)
    requires '$' !in p
    requires t != [] && t[0] == '$'
    requires forall k :: 2 <= k < |t| ==> t[k] != '$'
    ensures ProcessFormulas(p + t) == p + t
  {
    PlainPrefixKept(p, t);
    assert NextDollar(t, 2).None?;
  }

  /** Every `$` survives: the rewriter neither adds nor removes one. */
  lemma {:induction false} DollarCountKept(text: string)
    ensures Count(ProcessFormulas(text), '$') == Count(text, '$')
    decreases |text|
  {
    if text != [] {
      if text[0] != '$' {
        DollarCountKept(text[1..]);
        CountSplitAt(text, 1, '$');
        CountConcat([text[0]], ProcessFormulas(text[1..]), '$');
      } else if NextDollar(text, 2).Some? {
        var q := NextDollar(text, 2).value;
        DollarCountKept(text[q + 1..]);
        SpanDollarCount(text, q);
        RewriteMathKeepsDollars(text[1..q]);
      }
    }
  }

  /** A span at the start holds two `$` plus those of its interior, before
      and after rewriting. */
  lemma {:induction false} SpanDollarCount(text: string, q: nat)
    requires text != [] && text[0] == '$' && NextDollar(text, 2) == Some(q)
    ensures Count(ProcessFormulas(text), '$') == Count(text[1..q], '$') + 2 + Count(ProcessFormulas(text[q + 1..]), '$')
    ensures Count(text, '$') == Count(text[1..q], '$') + 2 + Count(text[q + 1..], '$')
  {
    var c := text[1..q];
    SpanAtStart(text, q);
    RewriteMathKeepsDollars(c);
    WrapCount(RewriteMath(c), ProcessFormulas(text[q + 1..]));
    SpanPieces(text, q);
    WrapCount(c, text[q + 1..]);
  }

  /** `$` + a + `$` + r holds two `$` more than a and r together. */
  lemma {:induction false} WrapCount(a: string, r: string)
    ensures Count("$" + a + "$" + r, '$') == Count(a, '$') + 2 + Count(r, '$')
  {
    CountConcat("$" + a + "$", r, '$');
    CountConcat3("$", a, "$", '$');
  }

  /** A text with no π, root sign, ≠ or `*` is returned unchanged: on such
      text (the rewriter's usual output) a second pass changes nothing. */
  lemma {:induction false} NoSymbolsUnchanged(text: string)
    requires 'π' !in text && '√' !in text && '≠' !in text && '*' !in text
    ensures ProcessFormulas(text) == text
    decreases |text|
  {
    if text != [] {
      assert text[1..] == text[|text| - |text[1..]|..];
      if text[0] != '$' {
        NoSymbolsUnchanged(text[1..]);
        assert [text[0]] + text[1..] == text;
      } else {
        match NextDollar(text, 2)
        case None =>
        case Some(q) =>
          var c := text[1..q];
          var rest := text[q + 1..];
          assert text == "$" + c + "$" + rest;
          assert c == text[1..][..q - 1];
          assert rest == text[|text| - |rest|..];
          NoSymbolsUnchanged(rest);
          RewriteMathUnchanged(c);
      }
    }
  }

  // ---- Single spans and single symbols ----

  /** A text that is one span with a non-empty, `$`-free interior is that
      span rewritten. */
  lemma {:induction false} SpanOnly(c: string)
    requires c != [] && '$' !in c
    ensures ProcessFormulas("$" + c + "$") == "$" + RewriteMath(c) + "$"
  {
    var text := "$" + c + "$";
    var q := |c| + 1;
    assert text[1..q] == c && text[q + 1..] == [];
    forall k | 2 <= k < q
      ensures text[k] != '$'
    {
      assert text[k] == c[k - 1];
    }
    NextDollarAt(text, 2, q);
    SpanAtStart(text, q);
    assert "$" + RewriteMath(c) + "$" + ProcessFormulas([]) == "$" + RewriteMath(c) + "$";
  }

  /** The stages of `RewriteMath`, one at a time. */
  lemma {:induction false} RewriteMathStages(c: string, a: string, b: string, e: string, f: string, r: string)
    requires a == ReplaceChar(c, 'π', "\\pi") && b == SqrtDigits(a) && e == SqrtBraces(b)
    requires f == ReplaceChar(e, '≠', "\\neq") && r == DeleteChar(f, '*')
    ensures RewriteMath(c) == r
  {
  }

  /** A text free of every rewritten symbol but a `*` at its end loses only
      that `*`. */
  lemma {:induction false} OnlyStarRemoved(p: string)
    requires 'π' !in p && '√' !in p && '≠' !in p && '*' !in p
    ensures RewriteMath(p + "*") == p
  {
    var c := p + "*";
    assert 'π' !in c && '√' !in c && '≠' !in c by {
      assert forall k :: 0 <= k < |c| ==> c[k] == if k < |p| then p[k] else '*';
    }
    RootsUnchanged(c);
    ReplaceCharNone(c, 'π', "\\pi");
    ReplaceCharNone(c, '≠', "\\neq");
    DeleteLast(p, '*');
    RewriteMathStages(c, c, c, c, c, p);
  }

  /** π becomes `\pi`. */
  lemma {:induction false} PiRewritten(c: string)
    requires c == "π"
    ensures RewriteMath(c) == "\\pi"
  {
    var a := "\\pi";
    assert ReplaceChar(c, 'π', a) == a by {
      ReplaceOnce([], [], 'π', a);
      assert [] + ['π'] + [] == c;
      assert [] + a + [] == a;
    }
    RootsUnchanged(a);
    ReplaceCharNone(a, '≠', "\\neq");
    DeleteCharFacts(a, '*');
    RewriteMathStages(c, a, a, a, a, a);
  }

  /** ≠ becomes `\neq`. */
  lemma {:induction false} NeqRewritten(c: string)
    requires c == "≠"
    ensures RewriteMath(c) == "\\neq"
  {
    var f := "\\neq";
    RootsUnchanged(c);
    assert ReplaceChar(c, '≠', f) == f by {
      ReplaceOnce([], [], '≠', f);
      assert [] + ['≠'] + [] == c;
      assert [] + f + [] == f;
    }
    ReplaceCharNone(c, 'π', "\\pi");
    DeleteCharFacts(f, '*');
    RewriteMathStages(c, c, c, c, f, f);
  }

  /** A root sign before a digit becomes `\sqrt{digit}`. */
  lemma {:induction false} RootDigit(d: char)
    requires IsDigit(d)
    ensures RewriteMath(['√', d]) == SqrtOpen + [d] + "}"
  {
    var c := ['√', d];
    var b := SqrtOpen + [d] + "}";
    assert SqrtDigits(c) == b by {
      assert DigitRun(c[1..]) == 1 by {
        assert c[1..] == [d];
        assert DigitRun(c[1..][1..]) == 0;
      }
      assert c[1..1 + 1] == [d] && c[1 + 1..] == [];
      SqrtDigitsOnce(c, 1);
    }
    assert '√' !in b && '≠' !in b && '*' !in b && 'π' !in c;
    RootsUnchanged(b);
    ReplaceCharNone(c, 'π', "\\pi");
    ReplaceCharNone(b, '≠', "\\neq");
    DeleteCharFacts(b, '*');
    RewriteMathStages(c, c, b, b, b, b);
  }

  /** A root sign before a braced text becomes `\\sqrt{text}`. */
  lemma {:induction false} RootBraces(x: char)
    requires x != '}' && x != '√' && x != 'π' && x != '≠' && x != '*'
    ensures RewriteMath(['√', '{', x, '}']) == SqrtOpen + [x] + "}"
  {
    var c := ['√', '{', x, '}'];
    var b := SqrtOpen + [x] + "}";
    RootBeforeNonDigit(c);
    BracedRoot(c, x);
    assert '≠' !in b && '*' !in b && 'π' !in c;
    ReplaceCharNone(c, 'π', "\\pi");
    ReplaceCharNone(b, '≠', "\\neq");
    DeleteCharFacts(b, '*');
    RewriteMathStages(c, c, c, b, b, b);
  }

  lemma {:induction false} BracedRoot(c: string, x: char)
    requires c == ['√', '{', x, '}'] && x != '}'
    ensures SqrtBraces(c) == SqrtOpen + [x] + "}"
  {
    assert NonBraceRun(c[2..]) == 1 by {
      assert c[2..][1..] == "}";
    }
    SqrtBracesStep(c);
    assert c[2..3] == [x] && c[4..] == [];
    RootsUnchanged([]);
  }

  /** Deleting `*` comes after the root rewrite: a root sign separated from
      its digit by a `*` stays as it is, now next to the digit. */
  lemma {:induction false} StarThenRoot(d: char)
    requires IsDigit(d)
    ensures RewriteMath(['√', '*', d]) == ['√', d]
  {
    var c := ['√', '*', d];
    RootBeforeNonDigit(c);
    assert DeleteChar(c, '*') == ['√', d] by {
      assert c == ['√'] + ['*'] + [d];
      DeleteOnce(['√'], [d], '*');
    }
    assert 'π' !in c && '≠' !in c;
    ReplaceCharNone(c, 'π', "\\pi");
    ReplaceCharNone(c, '≠', "\\neq");
    RewriteMathStages(c, c, c, c, c, ['√', d]);
  }

  /** A root sign not followed by a digit, with no other root sign, is
      left by the digit rewrite; if not followed by `{` either, it is left by
      the braced rewrite too. */
  lemma {:induction false} RootBeforeNonDigit(c: string)
    requires |c| >= 2 && c[0] == '√' && !IsDigit(c[1]) && '√' !in c[1..]
    ensures SqrtDigits(c) == c
    ensures c[1] != '{' ==> SqrtBraces(c) == c
  {
    RootsUnchanged(c[1..]);
    assert c == [c[0]] + c[1..];
  }

  /** First pass over `$√*d$`: the `*` is deleted, the root is left. */
  lemma {:induction false} FirstPass(d: char)
    requires IsDigit(d)
    ensures ProcessFormulas("$" + ['√', '*', d] + "$") == "$" + ['√', d] + "$"
  {
    SpanOnly(['√', '*', d]);
    StarThenRoot(d);
  }

  /** Second pass over `$√d$`: the root is rewritten. */
  lemma {:induction false} SecondPass(d: char)
    requires IsDigit(d)
    ensures ProcessFormulas("$" + ['√', d] + "$") == "$" + (SqrtOpen + [d] + "}") + "$"
  {
    SpanOnly(['√', d]);
    RootDigit(d);
  }

  /** The rewriter is not idempotent: deleting `*` brings a digit next to a
      root sign, which only a second pass rewrites. */
  lemma {:induction false} SecondPassDiffers(d: char)
    requires IsDigit(d)
    ensures var once := ProcessFormulas("$" + ['√', '*', d] + "$");
      ProcessFormulas(once) != once
  {
    FirstPass(d);
    SecondPass(d);
    assert |"$" + (SqrtOpen + [d] + "}") + "$"| != |"$" + ['√', d] + "$"|;
  }
}
