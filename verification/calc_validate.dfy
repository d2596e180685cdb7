/** The calculator's syntax checker: one left-to-right pass over the buffer
    that collects error spans and keeps the message of the first one. */
module CalcValidate {
  import opened JsText

  /** The kind of the last token the scan consumed. */
  datatype Token = Start | Num | Op | LParen | RParen

  datatype Reason =
    | InvalidChar | MisplacedDot | DoubleDot | LonelyDot | LeadingOp | DoubleOp
    | EmptyParens | UnmatchedClose | TrailingOp | UnmatchedOpen
    | DivZero | MathFailure | ComputeFailed

  /** A highlighted character range `[start, end)` and why it is highlighted. */
  datatype Span = Span(start: int, end: int, reason: Reason)

  datatype Validation = Validation(errors: seq<Span>, message: string)

  predicate IsOp(c: char) { c == '+' || c == '-' || c == '*' || c == '/' }

  predicate IsDigitDot(c: char) { IsDigit(c) || c == '.' }

  /** The characters a buffer may hold without an `invalid-char` error. */
  predicate IsAllowed(c: char) {
    IsDigitDot(c) || IsOp(c) || c == '(' || c == ')' || c == ' '
  }

  /** The advisory text attached to each reason. */
  function MessageOf(r: Reason): (m: string)
    ensures |m| > 0
  {
    match r
    case InvalidChar => "Invalid character detected."
    case MisplacedDot => "Misplaced decimal point."
    case DoubleDot => "A number cannot contain multiple decimals."
    case LonelyDot => "Number must have digits."
    case LeadingOp => "Expression cannot start with this operator."
    case DoubleOp => "Two operators in a row."
    case EmptyParens => "Empty parentheses."
    case UnmatchedClose => "Unmatched ')'."
    case TrailingOp => "Expression cannot end with an operator."
    case UnmatchedOpen => "Unmatched '('."
    case DivZero => "Math error (possible division by zero)."
    case MathFailure => "Math error (possible division by zero)."
    case ComputeFailed => "Could not evaluate. Please check the expression."
  }

  /** The one-character span at index `i`. */
  function At(i: int, r: Reason): Span { Span(i, i + 1, r) }

  /** The span `At(i, r)` is among the errors found. */
  predicate Flagged(found: seq<Span>, i: int, r: Reason) { At(i, r) in found }

  /** `errors.push(sp)`. */
  function Push(found: seq<Span>, sp: Span): seq<Span> { found + [sp] }

  /** The message after pushing `found` in order, each push doing
      `message ||= text`: a text is kept only while the message is empty. */
  function MessageAfter(found: seq<Span>): string {
    if |found| == 0 then ""
    else
      var m := MessageAfter(found[..|found| - 1]);
      if m == "" then MessageOf(found[|found| - 1].reason) else m
  }

  /** First error wins: the message is empty exactly when nothing was pushed,
      and otherwise it is the text of the first span pushed. */
  lemma {:induction false} MessageIsFirst(found: seq<Span>)
    ensures |found| == 0 <==> MessageAfter(found) == ""
    ensures |found| > 0 ==> MessageAfter(found) == MessageOf(found[0].reason)
  {
    if |found| > 1 {
      var front := found[..|found| - 1];
      MessageIsFirst(front);
      assert front[0] == found[0];
    }
  }

  /** Every span covers exactly one character of a buffer of length `n`. */
  predicate OneCharSpans(found: seq<Span>, n: int) {
    forall sp :: sp in found ==> sp.end == sp.start + 1 && 0 <= sp.start < n
  }

  /** A pushed span is flagged, and so is everything flagged before. */
  lemma FlaggedPush(found: seq<Span>, sp: Span)
    ensures forall k, why :: Flagged(Push(found, sp), k, why) <==> Flagged(found, k, why) || At(k, why) == sp
  {
  }

  /** The pre-pass: every character outside the allowed set is `invalid-char`. */
  function InvalidChars(s: string, i: nat, acc: seq<Span>): (r: seq<Span>)
    requires i <= |s|
    ensures acc <= r
    ensures OneCharSpans(acc, |s|) ==> OneCharSpans(r, |s|)
    ensures forall k, why :: Flagged(r, k, why) <==>
              Flagged(acc, k, why) || (why == InvalidChar && i <= k < |s| && !IsAllowed(s[k]))
    decreases |s| - i
  {
    if i == |s| then acc
    else
      var acc' := if IsAllowed(s[i]) then acc else Push(acc, At(i, InvalidChar));
      FlaggedPush(acc, At(i, InvalidChar));
      InvalidChars(s, i + 1, acc')
  }

  /** The scan's state between tokens: position, previous token kind, the
      indices of the `(` still open, and what was found so far. */
  datatype Cursor = Cursor(i: nat, prev: Token, stack: seq<nat>, acc: seq<Span>)

  /** Every recorded `(` index lies before the scan position. */
  predicate StackBelow(stack: seq<nat>, i: nat) {
    forall k :: 0 <= k < |stack| ==> stack[k] < i
  }

  lemma StackBelowLater(stack: seq<nat>, i: nat, j: nat)
    requires StackBelow(stack, i) && i <= j
    ensures StackBelow(stack, j)
  {
  }

  predicate Sound(s: string, c: Cursor) {
    c.i <= |s| && StackBelow(c.stack, c.i)
  }

  /** How a step may change the findings: it only appends, and it keeps the
      one-character shape of spans. */
  predicate Extends(s: string, before: seq<Span>, after: seq<Span>) {
    && before <= after
    && (OneCharSpans(before, |s|) ==> OneCharSpans(after, |s|))
  }

  lemma ExtendsPush(s: string, v: seq<Span>, sp: Span)
    requires sp.end == sp.start + 1 && 0 <= sp.start < |s|
    ensures Extends(s, v, Push(v, sp))
  {
  }

  lemma ExtendsTrans(s: string, a: seq<Span>, b: seq<Span>, c: seq<Span>)
    requires Extends(s, a, b) && Extends(s, b, c)
    ensures Extends(s, a, c)
  {
  }

  /** A dot after an earlier dot of the same number gets `double-dot`. */
  function DoubleDotCheck(s: string, i: nat, seenDot: bool, acc: seq<Span>): seq<Span>
    requires i < |s|
  {
    if s[i] == '.' && seenDot then Push(acc, At(i, DoubleDot)) else acc
  }

  /** The inner loop over the rest of a number: digits and dots, where a second
      dot is `double-dot`. Returns the index after the run. */
  function NumberRun(s: string, i: nat, seenDot: bool, acc: seq<Span>): (r: (nat, seq<Span>))
    requires i <= |s|
    ensures i <= r.0 <= |s|
    ensures r.0 == |s| || !IsDigitDot(s[r.0])
    ensures forall k :: i <= k < r.0 ==> IsDigitDot(s[k])
    ensures Extends(s, acc, r.1)
    decreases |s| - i
  {
    if i < |s| && IsDigitDot(s[i]) then
      ExtendsPush(s, acc, At(i, DoubleDot));
      var r := NumberRun(s, i + 1, seenDot || s[i] == '.', DoubleDotCheck(s, i, seenDot, acc));
      ExtendsTrans(s, acc, DoubleDotCheck(s, i, seenDot, acc), r.1);
      r
    else (i, acc)
  }

  /** A number token that starts with a dot right after a number or `)`
      gets `misplaced-dot` at that dot. */
  function MisplacedDotCheck(s: string, c: Cursor): seq<Span>
    requires c.i < |s|
  {
    if s[c.i] == '.' && (c.prev == Num || c.prev == RParen) then Push(c.acc, At(c.i, MisplacedDot))
    else c.acc
  }

  /** A number token `[i, j)` that is a single dot gets `lonely-dot`. */
  function LonelyDotCheck(s: string, i: nat, j: nat, acc: seq<Span>): seq<Span>
    requires i < |s|
  {
    if j - i == 1 && s[i] == '.' then Push(acc, At(i, LonelyDot)) else acc
  }

  /** A number token starting at `c.i`: a dot right after a number or `)` is
      `misplaced-dot`, a number that is a single dot is `lonely-dot`. */
  function NumberStep(s: string, c: Cursor): (r: Cursor)
    requires Sound(s, c) && c.i < |s| && IsDigitDot(s[c.i])
    ensures Sound(s, r) && c.i < r.i && r.stack == c.stack && r.prev == Num
    ensures forall k :: c.i <= k < r.i ==> IsDigitDot(s[k])
    ensures r.i == |s| || !IsDigitDot(s[r.i])
    ensures Extends(s, c.acc, r.acc)
  {
    ExtendsPush(s, c.acc, At(c.i, MisplacedDot));
    var run := NumberRun(s, c.i + 1, s[c.i] == '.', MisplacedDotCheck(s, c));
    ExtendsPush(s, run.1, At(c.i, LonelyDot));
    ExtendsTrans(s, c.acc, MisplacedDotCheck(s, c), run.1);
    ExtendsTrans(s, c.acc, run.1, LonelyDotCheck(s, c.i, run.0, run.1));
    StackBelowLater(c.stack, c.i, run.0);
    Cursor(run.0, Num, c.stack, LonelyDotCheck(s, c.i, run.0, run.1))
  }

  /** An operator: `leading-op` at the start or after `(` unless it is `-`,
      `double-op` right after another operator. */
  function OpStep(s: string, c: Cursor): (r: Cursor)
    requires Sound(s, c) && c.i < |s| && IsOp(s[c.i])
    ensures Sound(s, r) && r.i == c.i + 1 && r.stack == c.stack && r.prev == Op
    ensures Extends(s, c.acc, r.acc)
  {
    var i := c.i;
    var acc1 :=
      if c.prev == Start || c.prev == LParen then
        (if s[i] != '-' then Push(c.acc, At(i, LeadingOp)) else c.acc)
      else if c.prev == Op then Push(c.acc, At(i, DoubleOp))
      else c.acc;
    Cursor(i + 1, Op, c.stack, acc1)
  }

  /** A `)`: `unmatched-close` with nothing open; otherwise it closes the
      latest `(`, and a blank interior flags both as `empty-parens`. */
  function CloseStep(s: string, c: Cursor): (r: Cursor)
    requires Sound(s, c) && c.i < |s| && s[c.i] == ')'
    ensures Sound(s, r) && r.i == c.i + 1 && r.prev == RParen
    ensures Extends(s, c.acc, r.acc)
  {
    var i := c.i;
    if |c.stack| == 0 then
      Cursor(i + 1, RParen, c.stack, Push(c.acc, At(i, UnmatchedClose)))
    else
      var openIdx := c.stack[|c.stack| - 1];
      var acc1 := if IsBlank(s[openIdx + 1..i])
                  then Push(Push(c.acc, At(openIdx, EmptyParens)), At(i, EmptyParens))
                  else c.acc;
      Cursor(i + 1, RParen, c.stack[..|c.stack| - 1], acc1)
  }

  /** One pass of the token loop. Spaces and any other character are stepped
      over without changing `prev`; `(` pushes its index. */
  function Step(s: string, c: Cursor): (r: Cursor)
    requires Sound(s, c) && c.i < |s|
    ensures Sound(s, r) && c.i < r.i
    ensures Extends(s, c.acc, r.acc)
  {
    var ch := s[c.i];
    if ch == ' ' then c.(i := c.i + 1)
    else if IsDigit(ch) || ch == '.' then NumberStep(s, c)
    else if IsOp(ch) then OpStep(s, c)
    else if ch == '(' then Cursor(c.i + 1, LParen, c.stack + [c.i], c.acc)
    else if ch == ')' then CloseStep(s, c)
    else c.(i := c.i + 1)
  }

  /** The token loop, run to the end of the buffer. */
  function Scan(s: string, c: Cursor): (r: Cursor)
    requires Sound(s, c)
    ensures Sound(s, r) && r.i == |s|
    ensures c.i == |s| ==> r.prev == c.prev
    ensures Extends(s, c.acc, r.acc)
    decreases |s| - c.i
  {
    if c.i == |s| then c else Scan(s, Step(s, c))
  }

  /** Every `(` left on the stack becomes `unmatched-open`, in stack order. */
  function PushOpens(found: seq<Span>, stack: seq<nat>): (r: seq<Span>)
    ensures found <= r
    ensures forall k, why :: Flagged(r, k, why) <==>
              Flagged(found, k, why) || (why == UnmatchedOpen && k in stack)
    ensures forall sp :: sp in r ==>
              sp in found || (sp.reason == UnmatchedOpen && sp.end == sp.start + 1 && sp.start in stack)
    decreases |stack|
  {
    if |stack| == 0 then found
    else PushOpens(Push(found, At(stack[0], UnmatchedOpen)), stack[1..])
  }

  /** `validate(s)`: all error spans, in the order they were found, and the
      message of the first one. */
  function Validate(s: string): (v: Validation)
    ensures |v.errors| == 0 <==> v.message == ""
    ensures |v.errors| > 0 ==> v.message == MessageOf(v.errors[0].reason)
    ensures forall sp :: sp in v.errors ==> sp.end == sp.start + 1 && 0 <= sp.start < |s|
  {
    var st := Scanned(s);
    var found := if st.prev == Op then Push(st.acc, Span(|s| - 1, |s|, TrailingOp)) else st.acc;
    var errors := PushOpens(found, st.stack);
    MessageIsFirst(errors);
    Validation(errors, MessageAfter(errors))
  }

  /** The pre-pass and then the token loop over the whole buffer. */
  function Scanned(s: string): (r: Cursor)
    ensures Sound(s, r) && r.i == |s|
    ensures OneCharSpans(r.acc, |s|)
  {
    var pre := InvalidChars(s, 0, []);
    Scan(s, Cursor(0, Start, [], pre))
  }
}
