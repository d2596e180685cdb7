/** The calculator's expression buffer and the key actions that edit it. */
module CalcEditor {
  import opened JsText
  import opened CalcValidate
  import opened CalcSyntax
  import opened CalcDisplay
  import opened ZeroFilter

  /** The buffer and whether it holds the result of the last evaluation. */
  datatype Editor = Editor(expr: string, justEvaluated: bool)

  function LastChar(s: string): (c: Option<char>)
    ensures c.Some? <==> |s| > 0
    ensures |s| > 0 ==> c.value == s[|s| - 1]
  {
    if |s| == 0 then None else Some(s[|s| - 1])
  }

  /** `/[0-9\)]$/.test(s)`: the buffer ends in a digit or `)`. */
  predicate EndsOperand(s: string) {
    |s| > 0 && (IsDigit(s[|s| - 1]) || s[|s| - 1] == ')')
  }

  /** `reset()`: the buffer `0`, which the validator accepts. */
  function Reset(): (r: Editor)
    ensures r.expr == "0" && !r.justEvaluated
    ensures Validate(r.expr).errors == [] && Validate(r.expr).message == ""
  {
    ValidateZero();
    Editor("0", false)
  }

  /** No error of any reason is expected anywhere in `0`. */
  lemma ZeroHasNoErrors(sp: Span)
    ensures sp !in Validate("0").errors
  {
    ValidateExactly("0", sp);
    assert LastKind("0", 0) == Start;
    assert LastKind("0", 1) == Num;
    assert !Unclosed("0", 0, 1);
  }

  lemma ValidateZero()
    ensures Validate("0").errors == []
  {
    var v := Validate("0");
    if |v.errors| > 0 {
      ZeroHasNoErrors(v.errors[0]);
      assert false;
    }
  }

  // ---------- appendNumber ----------

  /** Where the leading-zero pattern `\b0+(?=\d)(\d+)` matches: a `0` at a
      word boundary that begins a run of at least two digits. Since a `0` is
      a word character, the boundary is a non-word character (or nothing)
      before it; a `.` is such a character. */
  predicate Fires(s: string, p: nat) {
    && p < |s| && s[p] == '0'
    && (p == 0 || !IsWordChar(s[p - 1]))
    && p + 1 < |s| && IsDigit(s[p + 1])
  }

  /** What a match at `p` is replaced by: the digits after the leading zeros,
      or the last zero when the run is all zeros. */
  function Kept(s: string, p: nat): (r: string)
    requires Fires(s, p)
    ensures 1 <= |r| < DigitRun(s, p)
  {
    var d := DigitRun(s, p);
    var z := RunOf(s, p, '0');
    ZerosWithinDigits(s, p);
    if z < d then s[p + z..p + d] else s[p + d - 1..p + d]
  }

  /** What a match keeps is the tail of its run of digits. */
  lemma KeptIsTail(s: string, p: nat)
    requires Fires(s, p)
    ensures Kept(s, p) == s[p + DigitRun(s, p) - |Kept(s, p)|..p + DigitRun(s, p)]
  {
  }

  /** `s.replace(/\b0+(?=\d)(\d+)/g, '$1')` from index `p` on: each match
      drops its leading zeros and the search resumes after it. */
  function StripZeros(s: string, p: nat): (r: string)
    requires p <= |s|
    ensures |r| <= |s| - p
    decreases |s| - p
  {
    if p == |s| then ""
    else if Fires(s, p) then Kept(s, p) + StripZeros(s, p + DigitRun(s, p))
    else [s[p]] + StripZeros(s, p + 1)
  }

  /** `r` is non-empty and its last character is `c`. */
  predicate EndsWith(r: string, c: char) { |r| > 0 && r[|r| - 1] == c }

  /** The cleanup never touches the last character. */
  lemma {:induction false} StripZerosKeepsLast(s: string, p: nat)
    requires p < |s|
    ensures EndsWith(StripZeros(s, p), s[|s| - 1])
    decreases |s| - p
  {
    if Fires(s, p) {
      if p + DigitRun(s, p) < |s| {
        StripZerosKeepsLast(s, p + DigitRun(s, p));
      }
      KeepsLastAtMatch(s, p);
    } else {
      if p + 1 < |s| {
        StripZerosKeepsLast(s, p + 1);
      }
      KeepsLastElsewhere(s, p);
    }
  }

  /** The step of `StripZerosKeepsLast` at a match. */
  lemma KeepsLastAtMatch(s: string, p: nat)
    requires Fires(s, p)
    requires p + DigitRun(s, p) < |s| ==> EndsWith(StripZeros(s, p + DigitRun(s, p)), s[|s| - 1])
    ensures EndsWith(StripZeros(s, p), s[|s| - 1])
  {
    StripZerosAtMatch(s, p);
    KeptEndsRun(s, p);
    EndsWithAppend(Kept(s, p), StripZeros(s, p + DigitRun(s, p)), s[|s| - 1]);
  }

  /** The step of `StripZerosKeepsLast` where no match starts. */
  lemma KeepsLastElsewhere(s: string, p: nat)
    requires p < |s| && !Fires(s, p)
    requires p + 1 < |s| ==> EndsWith(StripZeros(s, p + 1), s[|s| - 1])
    ensures EndsWith(StripZeros(s, p), s[|s| - 1])
  {
    StripZerosElsewhere(s, p);
    EndsWithAppend([s[p]], StripZeros(s, p + 1), s[|s| - 1]);
  }

  lemma EndsWithAppend(a: string, b: string, c: char)
    requires EndsWith(b, c) || (|b| == 0 && EndsWith(a, c))
    ensures EndsWith(a + b, c)
  {
  }

  /** What a match keeps ends with the last digit of its run. */
  lemma KeptEndsRun(s: string, p: nat)
    requires Fires(s, p)
    ensures EndsWith(Kept(s, p), s[p + DigitRun(s, p) - 1])
  {
    KeptIsTail(s, p);
  }

  lemma StripZerosElsewhere(s: string, p: nat)
    requires p < |s| && !Fires(s, p)
    ensures StripZeros(s, p) == [s[p]] + StripZeros(s, p + 1)
  {
  }

  /** A match drops nothing but zeros: before the kept digits come zeros only. */
  lemma KeptAfterZeros(s: string, p: nat)
    requires Fires(s, p)
    ensures forall j :: p <= j < p + DigitRun(s, p) - |Kept(s, p)| ==> s[j] == '0'
  {
    ZerosWithinDigits(s, p);
  }

  lemma StripZerosAtMatch(s: string, p: nat)
    requires Fires(s, p)
    ensures StripZeros(s, p) == Kept(s, p) + StripZeros(s, p + DigitRun(s, p))
  {
  }

  /** Around a match, only the kept digits contribute non-zero characters. */
  lemma MatchNonZeros(s: string, p: nat)
    requires Fires(s, p)
    ensures NonZeros(s[p..]) == NonZeros(Kept(s, p)) + NonZeros(s[p + DigitRun(s, p)..])
  {
    var d := DigitRun(s, p);
    KeptAfterZeros(s, p);
    KeptIsTail(s, p);
    SplitNonZerosFrom(s, p, p + d - |Kept(s, p)|, p + d);
  }

  /** The cleanup removes zeros and nothing else: the other characters stay,
      in order. */
  lemma {:induction false} StripZerosOnlyZeros(s: string, p: nat)
    requires p <= |s|
    ensures NonZeros(StripZeros(s, p)) == NonZeros(s[p..])
    decreases |s| - p, 1
  {
    if p < |s| {
      if Fires(s, p) {
        OnlyZerosAtMatch(s, p);
      } else {
        OnlyZerosElsewhere(s, p);
      }
    }
  }

  /** `StripZerosOnlyZeros` where a match starts at `p`. */
  lemma {:induction false} OnlyZerosAtMatch(s: string, p: nat)
    requires Fires(s, p)
    ensures NonZeros(StripZeros(s, p)) == NonZeros(s[p..])
    decreases |s| - p, 0
  {
    var d := DigitRun(s, p);
    FiresRun(s, p);
    StripZerosOnlyZeros(s, p + d);
    MatchNonZeros(s, p);
    StripZerosAtMatch(s, p);
    NonZerosChain(StripZeros(s, p), Kept(s, p), StripZeros(s, p + d), s[p..], s[p + d..]);
  }

  /** A match spans at least two digits. */
  lemma FiresRun(s: string, p: nat)
    requires Fires(s, p)
    ensures DigitRun(s, p) >= 2
  {
  }

  /** `StripZerosOnlyZeros` where no match starts at `p`. */
  lemma {:induction false} OnlyZerosElsewhere(s: string, p: nat)
    requires p < |s| && !Fires(s, p)
    ensures NonZeros(StripZeros(s, p)) == NonZeros(s[p..])
    decreases |s| - p, 0
  {
    StripZerosOnlyZeros(s, p + 1);
    StripZerosElsewhere(s, p);
    assert s[p..] == [s[p]] + s[p + 1..];
    NonZerosAppend([s[p]], s[p + 1..]);
    NonZerosAppend([s[p]], StripZeros(s, p + 1));
  }

  /** Where the pattern never matches, the cleanup changes nothing. */
  lemma {:induction false} StripZerosQuiet(s: string, p: nat)
    requires p <= |s|
    requires forall q :: p <= q < |s| ==> !Fires(s, q)
    ensures StripZeros(s, p) == s[p..]
    decreases |s| - p
  {
    if p < |s| {
      StripZerosQuiet(s, p + 1);
      assert s[p..] == [s[p]] + s[p + 1..];
    }
  }

  /** `appendNumber(ch)`: a fresh `0` is replaced, otherwise the key is
      appended; then leading zeros are cleaned up. */
  function AppendNumber(ed: Editor, ch: char): (r: Editor)
    ensures !r.justEvaluated
    ensures |r.expr| > 0 && r.expr[|r.expr| - 1] == ch
    ensures var typed := if ed.expr == "0" then (if ch == '.' then "0." else [ch]) else ed.expr + [ch];
      |r.expr| <= |typed| && NonZeros(r.expr) == NonZeros(typed)
  {
    var typed := if ed.expr == "0" then (if ch == '.' then "0." else [ch]) else ed.expr + [ch];
    StripZerosKeepsLast(typed, 0);
    StripZerosOnlyZeros(typed, 0);
    assert typed[0..] == typed;
    Editor(StripZeros(typed, 0), false)
  }

  /** Typing `0` after `0` keeps a single zero. */
  lemma NoDoubleZero()
    ensures AppendNumber(Editor("0", false), '0').expr == "0"
  {
    assert DigitRun("0", 0) == 1;
  }

  /** Typing after `007` drops the leading zeros. */
  lemma LeadingZerosDropped()
    ensures AppendNumber(Editor("00", false), '7').expr == "7"
  {
    var s := "007";
    assert DigitRun(s, 2) == 1 && DigitRun(s, 1) == 2 && DigitRun(s, 0) == 3;
    assert RunOf(s, 2, '0') == 0 && RunOf(s, 1, '0') == 1 && RunOf(s, 0, '0') == 2;
    assert Fires(s, 0);
    assert StripZeros(s, 0) == Kept(s, 0) + StripZeros(s, 3);
  }

  /** `0.5` is left alone: the pattern needs two digits after the boundary. */
  lemma KeepsZeroPointFive()
    ensures AppendNumber(Editor("0.", false), '5').expr == "0.5"
  {
    var s := "0.5";
    assert "0." + ['5'] == s && s[0..] == s;
    assert DigitRun(s, 0) == 1;
    assert !Fires(s, 0) && !Fires(s, 1) && !Fires(s, 2);
    StripZerosQuiet(s, 0);
  }

  /** The boundary before a fraction's leading zero also counts: typing `5`
      after `0.0` gives `0.5`, not `0.05`. */
  lemma FractionZeroDropped()
    ensures AppendNumber(Editor("0.0", false), '5').expr == "0.5"
  {
    var s := "0.05";
    assert "0.0" + ['5'] == s;
    assert DigitRun(s, 0) == 1 && DigitRun(s, 2) == 2 && RunOf(s, 2, '0') == 1;
    assert !Fires(s, 0) && !Fires(s, 1) && Fires(s, 2);
    assert Kept(s, 2) == "5";
    assert StripZeros(s, 4) == "";
    assert StripZeros(s, 2) == "5";
    assert StripZeros(s, 1) == "." + StripZeros(s, 2);
    assert StripZeros(s, 0) == "0" + StripZeros(s, 1);
  }

  /** The same cleanup with the boundary it is evidently meant to have: the
      zeros at the start of a fraction are not leading zeros. */
  predicate FiresIntended(s: string, p: nat) {
    Fires(s, p) && (p == 0 || s[p - 1] != '.')
  }

  function StripZerosIntended(s: string, p: nat): (r: string)
    requires p <= |s|
    decreases |s| - p
  {
    if p == |s| then ""
    else if FiresIntended(s, p) then Kept(s, p) + StripZerosIntended(s, p + DigitRun(s, p))
    else [s[p]] + StripZerosIntended(s, p + 1)
  }

  lemma {:induction false} StripZerosIntendedQuiet(s: string, p: nat)
    requires p <= |s|
    requires forall q :: p <= q < |s| ==> !FiresIntended(s, q)
    ensures StripZerosIntended(s, p) == s[p..]
    decreases |s| - p
  {
    if p < |s| {
      StripZerosIntendedQuiet(s, p + 1);
      assert s[p..] == [s[p]] + s[p + 1..];
    }
  }

  /** A decimal number without leading zeros in its integer part is kept
      exactly, fraction zeros included. */
  lemma IntendedKeepsDecimal(ip: string, fp: string)
    requires |ip| > 0 && AllDigits(ip) && (ip[0] != '0' || |ip| == 1)
    requires AllDigits(fp)
    ensures StripZerosIntended(ip + "." + fp, 0) == ip + "." + fp
  {
    var s := ip + "." + fp;
    forall q | 0 <= q < |s|
      ensures !FiresIntended(s, q)
    {
      if q == 0 && s[0] == '0' {
        assert |ip| == 1 && s[1] == '.';
        assert DigitRun(s, 1) == 0;
      } else if 0 < q < |ip| || |ip| + 1 < q {
        assert IsWordChar(s[q - 1]);
      }
    }
    StripZerosIntendedQuiet(s, 0);
  }

  /** `appendNumber` with the intended cleanup. */
  function AppendNumberIntended(ed: Editor, ch: char): (r: Editor)
    ensures !r.justEvaluated
  {
    var typed := if ed.expr == "0" then (if ch == '.' then "0." else [ch]) else ed.expr + [ch];
    Editor(StripZerosIntended(typed, 0), false)
  }

  lemma IntendedKeepsFractionZero()
    ensures AppendNumberIntended(Editor("0.0", false), '5').expr == "0.05"
  {
    IntendedKeepsDecimal("0", "05");
    assert "0" + "." + "05" == "0.05" == "0.0" + ['5'];
  }

  // ---------- appendDot ----------

  /** `appendDot()`: a dot after a digit; otherwise `0.`, preceded by `*`
      when the buffer ends in `)` or `.`. */
  function AppendDot(ed: Editor): (r: Editor)
    ensures !r.justEvaluated
    ensures ed.expr < r.expr
    ensures |r.expr| >= 2 && r.expr[|r.expr| - 1] == '.' && IsDigit(r.expr[|r.expr| - 2])
    ensures |ed.expr| > 0 && IsDigit(ed.expr[|ed.expr| - 1]) <==> r.expr == ed.expr + "."
    ensures |ed.expr| > 0 && (ed.expr[|ed.expr| - 1] == ')' || ed.expr[|ed.expr| - 1] == '.')
            ==> r.expr == ed.expr + "*0."
    ensures |ed.expr| == 0 || !(IsDigit(ed.expr[|ed.expr| - 1]) || ed.expr[|ed.expr| - 1] == ')'
                                || ed.expr[|ed.expr| - 1] == '.')
            ==> r.expr == ed.expr + "0."
  {
    var s := ed.expr;
    var t :=
      if !(|s| > 0 && IsDigit(s[|s| - 1])) then
        s + (if |s| > 0 && (s[|s| - 1] == ')' || s[|s| - 1] == '.') then "*0." else "0.")
      else s + ".";
    Editor(t, false)
  }

  // ---------- backspace ----------

  /** `backspace()`: right after an evaluation it resets; otherwise it drops
      the last character, leaving `0` rather than an empty buffer. */
  function Backspace(ed: Editor): (r: Editor)
    ensures |r.expr| > 0
    ensures !r.justEvaluated
    ensures ed.justEvaluated ==> r == Reset()
    ensures !ed.justEvaluated && |ed.expr| > 1 ==> r.expr + [ed.expr[|ed.expr| - 1]] == ed.expr
    ensures !ed.justEvaluated && |ed.expr| <= 1 ==> r.expr == "0"
  {
    if ed.justEvaluated then Reset()
    else Editor(if |ed.expr| > 1 then ed.expr[..|ed.expr| - 1] else "0", ed.justEvaluated)
  }

  /** Backspace takes back one typed dot. */
  lemma BackspaceUndoesDot(ed: Editor)
    requires !ed.justEvaluated && |ed.expr| > 0 && IsDigit(ed.expr[|ed.expr| - 1])
    ensures Backspace(AppendDot(ed)) == Editor(ed.expr, false)
  {
  }

  // ---------- insertOp ----------

  /** The branches of `insertOp`, in source order. */
  datatype OpCase = UnaryMinus | ReplaceOp | MinusAfterOpen | AfterOperand | AfterOther

  function InsertOpCase(s: string, op: char): (b: OpCase)
    ensures b != MinusAfterOpen
  {
    var last := LastChar(s);
    if (|s| == 0 || last == Some('(')) && op == '-' then UnaryMinus
    else if last.Some? && IsOp(last.value) then ReplaceOp
    else if last == Some('(') && op == '-' then MinusAfterOpen
    else if EndsOperand(s) then AfterOperand
    else AfterOther
  }

  /** A `-` typed on an empty buffer or right after `(` is a unary minus. */
  predicate UnaryMinusPlace(s: string, op: char) {
    (|s| == 0 || s[|s| - 1] == '(') && op == '-'
  }

  /** `insertOp(op)`: a unary minus at the start or after `(`; otherwise a
      trailing operator is replaced, and an operator with no operand before
      it gets a `0` in front. */
  function InsertOp(ed: Editor, op: char): (r: Editor)
    ensures !r.justEvaluated
    ensures |r.expr| > 0 && r.expr[|r.expr| - 1] == op
    ensures |ed.expr| > 0 && IsOp(ed.expr[|ed.expr| - 1]) ==>
              |r.expr| == |ed.expr| && r.expr[..|r.expr| - 1] == ed.expr[..|ed.expr| - 1]
    ensures !(|ed.expr| > 0 && IsOp(ed.expr[|ed.expr| - 1])) ==> ed.expr < r.expr
    ensures UnaryMinusPlace(ed.expr, op) ==> r.expr == ed.expr + "-"
    ensures !UnaryMinusPlace(ed.expr, op) && |ed.expr| > 0 && IsOp(ed.expr[|ed.expr| - 1])
            ==> r.expr == ed.expr[..|ed.expr| - 1] + [op]
    ensures !UnaryMinusPlace(ed.expr, op) && !(|ed.expr| > 0 && IsOp(ed.expr[|ed.expr| - 1]))
            ==> r.expr == ed.expr + (if EndsOperand(ed.expr) then [op] else ['0', op])
  {
    var s := ed.expr;
    var t :=
      match InsertOpCase(s, op)
      case UnaryMinus => s + "-"
      case ReplaceOp => s[..|s| - 1] + [op]
      case MinusAfterOpen => s + "-"
      case AfterOperand => s + [op]
      case AfterOther => s + "0" + [op];
    Editor(t, false)
  }

  /** No operator directly follows another. */
  predicate NoAdjacentOps(s: string) {
    forall k :: 0 < k < |s| ==> !(IsOp(s[k - 1]) && IsOp(s[k]))
  }

  lemma InsertOpKeepsOpsApart(ed: Editor, op: char)
    requires IsOp(op) && NoAdjacentOps(ed.expr)
    ensures NoAdjacentOps(InsertOp(ed, op).expr)
  {
    var s := ed.expr;
    var t := InsertOp(ed, op).expr;
    forall k | 0 < k < |t|
      ensures !(IsOp(t[k - 1]) && IsOp(t[k]))
    {
      if k < |s| - 1 {
        assert t[k - 1] == s[k - 1] && t[k] == s[k];
      }
    }
  }

  // ---------- toggleParen ----------

  /** The buffer `toggleParen()` leaves behind. */
  function ToggleParenText(s: string): string {
    if s == "0" || s == "" then "("
    else if Count(s, '(') > Count(s, ')') && EndsOperand(s) then s + ")"
    else if EndsOperand(s) then s + "*("
    else s + "("
  }

  /** What `toggleParen()` adds, branch by branch, and what that does to the
      count of parentheses. */
  lemma ToggleParenTextFacts(s: string)
    ensures var t := ToggleParenText(s);
            && |t| > 0 && (t[|t| - 1] == '(' || t[|t| - 1] == ')')
            && (s != "0" ==> s < t)
            && (Count(s, ')') <= Count(s, '(') ==> Count(t, ')') <= Count(t, '('))
            && (t[|t| - 1] == ')' <==> s != "0" && |s| > 0 && Count(s, '(') > Count(s, ')') && EndsOperand(s))
  {
    var t := ToggleParenText(s);
    if s == "0" || s == "" {
    } else if Count(s, '(') > Count(s, ')') && EndsOperand(s) {
      ParensAppend(s, ")");
    } else if EndsOperand(s) {
      ParensAppend(s, "*(");
    } else {
      ParensAppend(s, "(");
    }
  }

  /** `toggleParen()`: `(` on a fresh buffer; `)` when a `(` is open and the
      buffer ends in an operand; otherwise a new `(`, with `*` after an operand. */
  function ToggleParen(ed: Editor): (r: Editor)
    ensures !r.justEvaluated
    ensures |r.expr| > 0 && (r.expr[|r.expr| - 1] == '(' || r.expr[|r.expr| - 1] == ')')
    ensures ed.expr != "0" ==> ed.expr < r.expr
    ensures Count(ed.expr, ')') <= Count(ed.expr, '(') ==> Count(r.expr, ')') <= Count(r.expr, '(')
    ensures r.expr[|r.expr| - 1] == ')' <==>
              ed.expr != "0" && |ed.expr| > 0 && Count(ed.expr, '(') > Count(ed.expr, ')') && EndsOperand(ed.expr)
    ensures ed.expr == "0" || ed.expr == "" ==> r.expr == "("
    ensures ed.expr != "0" && Count(ed.expr, '(') > Count(ed.expr, ')') && EndsOperand(ed.expr)
            ==> r.expr == ed.expr + ")"
    ensures ed.expr != "0" && Count(ed.expr, '(') <= Count(ed.expr, ')') && EndsOperand(ed.expr)
            ==> r.expr == ed.expr + "*("
    ensures ed.expr != "" && !EndsOperand(ed.expr) ==> r.expr == ed.expr + "("
  {
    ToggleParenTextFacts(ed.expr);
    Editor(ToggleParenText(ed.expr), false)
  }

  /** The parentheses of `a + b` are those of `a` and those of `b`. */
  lemma ParensAppend(a: string, b: string)
    ensures Count(a + b, '(') == Count(a, '(') + Count(b, '(')
    ensures Count(a + b, ')') == Count(a, ')') + Count(b, ')')
  {
    CountAppend(a, b);
  }

  lemma CountAppend(a: string, b: string)
    ensures forall c :: Count(a + b, c) == Count(a, c) + Count(b, c)
  {
    assert multiset(a + b) == multiset(a) + multiset(b);
  }

  // ---------- sanitizeForEval ----------

  /** The first loop of `sanitizeForEval`: trailing operators and `(` go. */
  function StripTrailing(s: string): (r: string)
    ensures r <= s
    ensures |r| == 0 || !(IsOp(r[|r| - 1]) || r[|r| - 1] == '(')
    ensures forall k :: |r| <= k < |s| ==> IsOp(s[k]) || s[k] == '('
    decreases |s|
  {
    if |s| > 0 && (IsOp(s[|s| - 1]) || s[|s| - 1] == '(') then StripTrailing(s[..|s| - 1]) else s
  }

  /** `sanitizeForEval()`: drop trailing operators and `(`, then close every
      `(` left open. */
  function SanitizeForEval(s: string): (r: string)
    ensures StripTrailing(s) <= r
    ensures forall k :: |StripTrailing(s)| <= k < |r| ==> r[k] == ')'
    ensures Count(r, '(') <= Count(r, ')')
    ensures Count(StripTrailing(s), '(') > Count(StripTrailing(s), ')') ==> Count(r, '(') == Count(r, ')')
    ensures Count(StripTrailing(s), '(') <= Count(StripTrailing(s), ')') ==> r == StripTrailing(s)
  {
    var t := StripTrailing(s);
    var opens := Count(t, '(');
    var closes := Count(t, ')');
    if opens > closes then
      ClosedCounts(t, opens - closes);
      t + Repeat(')', opens - closes)
    else t
  }

  /** Appending `n` copies of `)` adds `n` closes and no opens. */
  lemma ClosedCounts(t: string, n: nat)
    ensures Count(t + Repeat(')', n), '(') == Count(t, '(')
    ensures Count(t + Repeat(')', n), ')') == Count(t, ')') + n
  {
    CountAppend(t, Repeat(')', n));
    RepeatCount(')', n);
  }

  lemma RepeatCount(c: char, n: nat)
    ensures Count(Repeat(c, n), c) == n
    ensures forall d :: d != c ==> Count(Repeat(c, n), d) == 0
  {
    if n > 0 {
      RepeatCount(c, n - 1);
      assert Repeat(c, n) == [c] + Repeat(c, n - 1);
      assert multiset(Repeat(c, n)) == multiset{c} + multiset(Repeat(c, n - 1));
    }
  }

  /** With no `)` ever unmatched, the open stack holds one entry for each `(`
      not yet matched by a `)`. */
  lemma {:induction false} OpenStackCounts(s: string, n: nat)
    requires n <= |s|
    requires forall k :: 0 <= k < n && s[k] == ')' ==> |OpenStack(s, k)| > 0
    ensures |OpenStack(s, n)| == Count(s[..n], '(') - Count(s[..n], ')')
  {
    if n > 0 {
      OpenStackCounts(s, n - 1);
      assert s[..n] == s[..n - 1] + [s[n - 1]];
      CountAppend(s[..n - 1], [s[n - 1]]);
    }
  }

  /** An accepted buffer ends in neither an operator nor `(`. */
  lemma AcceptedEnd(s: string)
    requires Validate(s).errors == [] && |s| > 0
    ensures !IsOp(s[|s| - 1]) && s[|s| - 1] != '('
  {
    var n := |s|;
    assert IsOp(s[n - 1]) ==> LastKind(s, n) == Op;
    assert Bal(s, n, n) == 0;
    assert s[n - 1] == '(' ==> Unclosed(s, n - 1, n);
    ValidateFlags(s, n - 1, TrailingOp);
    ValidateFlags(s, n - 1, UnmatchedOpen);
  }

  /** In an accepted buffer every `)` finds a `(` open before it. */
  lemma AcceptedCloses(s: string)
    requires Validate(s).errors == []
    ensures forall k :: 0 <= k < |s| && s[k] == ')' ==> |OpenStack(s, k)| > 0
  {
    forall k | 0 <= k < |s| && s[k] == ')'
      ensures |OpenStack(s, k)| > 0
    {
      ValidateFlags(s, k, UnmatchedClose);
      NoneOpenIff(s, k);
    }
  }

  /** An accepted buffer leaves no `(` open at its end. */
  lemma AcceptedBalanced(s: string)
    requires Validate(s).errors == []
    ensures |OpenStack(s, |s|)| == 0
  {
    forall o | 0 <= o < |s|
      ensures !Unclosed(s, o, |s|)
    {
      ValidateFlags(s, o, UnmatchedOpen);
    }
    NoneOpenIff(s, |s|);
  }

  /** The validator accepts no buffer that ends in an operator or `(`, nor one
      with an unmatched parenthesis, so sanitizing an accepted buffer changes
      nothing. */
  lemma SanitizeAccepted(s: string)
    requires Validate(s).errors == []
    ensures SanitizeForEval(s) == s
  {
    if |s| > 0 {
      AcceptedEnd(s);
    }
    assert StripTrailing(s) == s;
    AcceptedCloses(s);
    AcceptedBalanced(s);
    OpenStackCounts(s, |s|);
    assert s[..|s|] == s;
  }

  // ---------- evaluate ----------

  /** What the expression evaluator and the finiteness test report for a
      sanitized buffer: the rounded result as text, a non-finite value, or a
      thrown exception. */
  datatype Computed = Finite(text: string) | NonFinite | Threw

  /** What the display and message line show after an action. */
  datatype Shown = Shown(text: string, ranges: seq<Span>, message: string)

  const FallbackMessage := "Fix the highlighted syntax error."
  const MathMessage := "Math error (possible division by zero)."
  const ComputeMessage := "Could not evaluate. Please check the expression."

  /** The display after a non-finite result: the zero divisors, or the whole
      buffer when there are none. */
  function MathShown(e: string): (r: Shown)
    ensures r.text == e && r.message == MathMessage && |r.ranges| > 0
    ensures forall k :: 0 <= k < |r.ranges| ==>
              ZeroLiteral(e, r.ranges[k]) || r.ranges[k] == Span(0, |e|, MathFailure)
    ensures |FindDivisionByZeroRanges(e)| > 0 ==> r.ranges == FindDivisionByZeroRanges(e)
    ensures |FindDivisionByZeroRanges(e)| == 0 ==> r.ranges == [Span(0, |e|, MathFailure)]
    ensures (exists q :: ZeroDivisorAt(e, q)) ==> r.ranges == FindDivisionByZeroRanges(e)
    ensures (forall q :: !ZeroDivisorAt(e, q)) ==> r.ranges == [Span(0, |e|, MathFailure)]
  {
    HasZeroDivisor(e);
    var dz := FindDivisionByZeroRanges(e);
    Shown(e, if |dz| > 0 then dz else [Span(0, |e|, MathFailure)], MathMessage)
  }

  /** The computing half of `evaluate()`, for a buffer the syntax pass
      accepted: the sanitized buffer goes to `compute`; a finite result
      replaces the buffer, anything else keeps it and highlights the zero
      divisors or the whole buffer. */
  function Compute(ed: Editor, compute: string -> Computed): (r: (Editor, Shown))
    requires Validate(ed.expr).errors == []
    ensures !compute(ed.expr).Finite? ==> r.0 == ed && r.1.text == ed.expr && |r.1.ranges| > 0
    ensures compute(ed.expr).Finite? ==>
              r.0 == Editor(compute(ed.expr).text, true) && r.1 == Shown(r.0.expr, [], "")
  {
    var e := SanitizeForEval(ed.expr);
    SanitizeAccepted(ed.expr);
    assert e == ed.expr;
    match compute(e)
    case NonFinite => (Editor(e, ed.justEvaluated), MathShown(e))
    case Finite(t) => (Editor(t, true), Shown(t, [], ""))
    case Threw => (Editor(e, ed.justEvaluated), Shown(e, [Span(0, |e|, ComputeFailed)], ComputeMessage))
  }

  /** `evaluate()`: the syntax pass first; with errors nothing is computed
      and the buffer and flag stay as they are. */
  function Evaluate(ed: Editor, compute: string -> Computed): (r: (Editor, Shown))
    ensures Validate(ed.expr).errors != [] ==>
              r.0 == ed && r.1 == Shown(ed.expr, Validate(ed.expr).errors, Validate(ed.expr).message)
    ensures Validate(ed.expr).errors == [] ==> r == Compute(ed, compute)
  {
    var v := Validate(ed.expr);
    if |v.errors| > 0 then
      (ed, Shown(ed.expr, v.errors, if v.message != "" then v.message else FallbackMessage))
    else Compute(ed, compute)
  }
}
