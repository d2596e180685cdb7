/** What each validator error means, stated directly over the buffer rather
    than through the scan, and the theorem that `Validate` reports exactly
    those errors. */
module CalcSyntax {
  import opened JsText
  import opened CalcValidate

  // ---------- Reference definitions ----------

  /** The token kind of the last digit, dot, operator or parenthesis before
      index `i` (`Start` if none): spaces and invalid characters do not count. */
  function LastKind(s: string, i: nat): Token
    requires i <= |s|
  {
    if i == 0 then Start
    else
      var c := s[i - 1];
      if IsDigitDot(c) then Num
      else if IsOp(c) then Op
      else if c == '(' then LParen
      else if c == ')' then RParen
      else LastKind(s, i - 1)
  }

  /** The indices of the `(` still open after reading `s[..i]`, where a `)`
      closes the latest open one and is ignored when none is open. */
  function OpenStack(s: string, i: nat): seq<nat>
    requires i <= |s|
  {
    if i == 0 then []
    else
      var st := OpenStack(s, i - 1);
      if s[i - 1] == '(' then st + [i - 1]
      else if s[i - 1] == ')' && |st| > 0 then st[..|st| - 1]
      else st
  }

  function Delta(c: char): int {
    if c == '(' then 1 else if c == ')' then -1 else 0
  }

  /** Number of `(` minus number of `)` in `s[a..b]`. */
  function Bal(s: string, a: nat, b: nat): int
    requires a <= b <= |s|
    decreases b - a
  {
    if a == b then 0 else Bal(s, a, b - 1) + Delta(s[b - 1])
  }

  /** Some stretch right after the `(` at `o` and ending before `m` holds
      more `)` than `(`: the `(` is closed by then. */
  predicate Closes(s: string, o: nat, m: nat)
    requires o < m <= |s|
  {
    Bal(s, o + 1, m) < 0
  }

  /** The `(` at `o` is still unclosed after reading `s[..n]`. */
  predicate Unclosed(s: string, o: int, n: nat)
    requires n <= |s|
  {
    && 0 <= o < n
    && s[o] == '('
    && forall m :: o < m <= n ==> !Closes(s, o, m)
  }

  /** No `(` is open before index `n`. */
  predicate NoneOpen(s: string, n: nat)
    requires n <= |s|
  {
    forall o :: 0 <= o < n ==> !Unclosed(s, o, n)
  }

  /** Index of the last non-whitespace character before `i`, or -1. */
  function LastNonWs(s: string, i: nat): (r: int)
    requires i <= |s|
    ensures -1 <= r < i
    ensures r >= 0 ==> !IsJsWhitespace(s[r])
    ensures forall k :: r < k < i ==> IsJsWhitespace(s[k])
  {
    if i == 0 then -1
    else if IsJsWhitespace(s[i - 1]) then LastNonWs(s, i - 1)
    else i - 1
  }

  /** Index of the first non-whitespace character at or after `i`, or `|s|`. */
  function NextNonWs(s: string, i: nat): (r: nat)
    requires i <= |s|
    ensures i <= r <= |s|
    ensures r < |s| ==> !IsJsWhitespace(s[r])
    ensures forall k :: i <= k < r ==> IsJsWhitespace(s[k])
    decreases |s| - i
  {
    if i == |s| then i
    else if IsJsWhitespace(s[i]) then NextNonWs(s, i + 1)
    else i
  }

  /** Index `k` starts a run of digits and dots. */
  predicate RunStart(s: string, k: nat)
    requires k <= |s|
  {
    k == 0 || !IsDigitDot(s[k - 1])
  }

  /** The run of digits and dots that reaches index `k` has a dot before `k`. */
  predicate DotEarlierInRun(s: string, k: nat)
    requires k <= |s|
  {
    k > 0 && IsDigitDot(s[k - 1]) && (s[k - 1] == '.' || DotEarlierInRun(s, k - 1))
  }

  /** A `)` whose nearest non-blank predecessor is a `(`. */
  predicate EmptyClose(s: string, k: int) {
    0 <= k < |s| && s[k] == ')' && LastNonWs(s, k) >= 0 && s[LastNonWs(s, k)] == '('
  }

  /** A `(` whose nearest non-blank successor is a `)`. */
  predicate EmptyOpen(s: string, k: int) {
    0 <= k < |s| && s[k] == '(' && NextNonWs(s, k + 1) < |s| && s[NextNonWs(s, k + 1)] == ')'
  }

  /** The reasons the token loop itself reports. */
  predicate ScanReason(r: Reason) {
    r.MisplacedDot? || r.DoubleDot? || r.LonelyDot? || r.LeadingOp? || r.DoubleOp?
    || r.EmptyParens? || r.UnmatchedClose?
  }

  /** A `.` that opens a number right after a number or a `)`. */
  predicate MisplacedDotAt(s: string, k: int) {
    0 <= k < |s| && s[k] == '.' && RunStart(s, k) && LastKind(s, k) in {Num, RParen}
  }

  /** A `.` after an earlier dot of the same number. */
  predicate DoubleDotAt(s: string, k: int) {
    0 <= k < |s| && s[k] == '.' && DotEarlierInRun(s, k)
  }

  /** A number that is a single `.`. */
  predicate LonelyDotAt(s: string, k: int) {
    0 <= k < |s| && s[k] == '.' && RunStart(s, k) && (k + 1 == |s| || !IsDigitDot(s[k + 1]))
  }

  /** An operator other than `-` at the start or right after a `(`. */
  predicate LeadingOpAt(s: string, k: int) {
    0 <= k < |s| && IsOp(s[k]) && s[k] != '-' && LastKind(s, k) in {Start, LParen}
  }

  /** An operator right after another operator. */
  predicate DoubleOpAt(s: string, k: int) {
    0 <= k < |s| && IsOp(s[k]) && LastKind(s, k) == Op
  }

  /** A `)` with no `(` open before it. */
  predicate UnmatchedCloseAt(s: string, k: int) {
    0 <= k < |s| && s[k] == ')' && NoneOpen(s, k)
  }

  /** The last character, when the last token is an operator. */
  predicate TrailingOpAt(s: string, k: int) {
    |s| > 0 && k == |s| - 1 && LastKind(s, |s|) == Op
  }

  /** A `(` still unclosed at the end of the buffer. */
  predicate UnmatchedOpenAt(s: string, k: int) {
    0 <= k < |s| && Unclosed(s, k, |s|)
  }

  /** When index `k` of buffer `s` must carry an error of reason `r`. */
  predicate Expected(s: string, k: int, r: Reason) {
    match r
    case InvalidChar => 0 <= k < |s| && !IsAllowed(s[k])
    case MisplacedDot => MisplacedDotAt(s, k)
    case DoubleDot => DoubleDotAt(s, k)
    case LonelyDot => LonelyDotAt(s, k)
    case LeadingOp => LeadingOpAt(s, k)
    case DoubleOp => DoubleOpAt(s, k)
    case EmptyParens => EmptyClose(s, k) || EmptyOpen(s, k)
    case UnmatchedClose => UnmatchedCloseAt(s, k)
    case TrailingOp => TrailingOpAt(s, k)
    case UnmatchedOpen => UnmatchedOpenAt(s, k)
    case DivZero => false
    case MathFailure => false
    case ComputeFailed => false
  }

  // ---------- Facts about the reference definitions ----------

  /** Shape of the open stack: increasing `(` indices below `n`, and after the
      `q`-th one the text holds exactly as many extra `(` as there are open
      entries above it. */
  lemma {:induction false} OpenStackShape(s: string, n: nat)
    requires n <= |s|
    ensures forall q :: 0 <= q < |OpenStack(s, n)| ==>
              && OpenStack(s, n)[q] < n
              && s[OpenStack(s, n)[q]] == '('
              && Bal(s, OpenStack(s, n)[q] + 1, n) == |OpenStack(s, n)| - 1 - q
    ensures forall q, q' :: 0 <= q < q' < |OpenStack(s, n)| ==> OpenStack(s, n)[q] < OpenStack(s, n)[q']
  {
    if n > 0 {
      OpenStackShape(s, n - 1);
      var st := OpenStack(s, n - 1);
      var st' := OpenStack(s, n);
      assert st' == (if s[n - 1] == '(' then st + [n - 1]
                     else if s[n - 1] == ')' && |st| > 0 then st[..|st| - 1]
                     else st);
      forall q | 0 <= q < |st'|
        ensures st'[q] < n && s[st'[q]] == '(' && Bal(s, st'[q] + 1, n) == |st'| - 1 - q
      {
        if q < |st| {
          assert st'[q] == st[q];
          assert st[q] < n - 1 && s[st[q]] == '(' && Bal(s, st[q] + 1, n - 1) == |st| - 1 - q;
          assert Bal(s, st[q] + 1, n) == Bal(s, st[q] + 1, n - 1) + Delta(s[n - 1]);
        } else {
          assert st'[q] == n - 1;
        }
      }
      forall q, q' | 0 <= q < q' < |st'|
        ensures st'[q] < st'[q']
      {
        if q' < |st| {
          assert st'[q] == st[q] && st'[q'] == st[q'];
        } else {
          assert st'[q] == st[q];
        }
      }
    }
  }

  /** An index is on the open stack exactly when its `(` is still unclosed. */
  lemma {:induction false} OpenStackIff(s: string, n: nat)
    requires n <= |s|
    ensures forall o :: o in OpenStack(s, n) <==> Unclosed(s, o, n)
  {
    if n > 0 {
      OpenStackIff(s, n - 1);
      OpenStackShape(s, n - 1);
      var st := OpenStack(s, n - 1);
      var st' := OpenStack(s, n);
      assert st' == (if s[n - 1] == '(' then st + [n - 1]
                     else if s[n - 1] == ')' && |st| > 0 then st[..|st| - 1]
                     else st);
      forall o
        ensures o in st' <==> Unclosed(s, o, n)
      {
        if o == n - 1 {
          assert Bal(s, n, n) == 0;
          assert o !in st;
        } else if 0 <= o < n - 1 && s[o] == '(' {
          assert Bal(s, o + 1, n) == Bal(s, o + 1, n - 1) + Delta(s[n - 1]);
          if o in st {
            var q :| 0 <= q < |st| && st[q] == o;
            assert Unclosed(s, o, n - 1);
            if s[n - 1] == ')' {
              if q < |st| - 1 {
                assert st'[q] == o;
              } else {
                assert forall p :: 0 <= p < |st'| ==> st'[p] == st[p] && st[p] < o;
                assert o !in st';
              }
            }
            if Bal(s, o + 1, n) >= 0 {
              forall m | o < m <= n
                ensures !Closes(s, o, m)
              {
                if m < n {
                  assert !Closes(s, o, m);
                }
              }
            } else {
              assert Closes(s, o, n);
            }
          } else {
            assert !Unclosed(s, o, n - 1);
            var m :| o < m <= n - 1 && Closes(s, o, m);
            assert !Unclosed(s, o, n);
            assert o !in st';
          }
        }
      }
    }
  }

  /** Digits and dots leave the open stack alone. */
  lemma {:induction false} OpenStackOverRun(s: string, i: nat, j: nat)
    requires i <= j <= |s|
    requires forall k :: i <= k < j ==> IsDigitDot(s[k])
    ensures OpenStack(s, j) == OpenStack(s, i)
    decreases j - i
  {
    if i < j {
      OpenStackOverRun(s, i, j - 1);
    }
  }

  /** When the nearest non-blank character before `i` is a `(`, that `(` is
      on top of the open stack. */
  lemma {:induction false} BlankAfterOpenIsTop(s: string, i: nat)
    requires i <= |s|
    requires LastNonWs(s, i) >= 0 && s[LastNonWs(s, i)] == '('
    ensures |OpenStack(s, i)| > 0 && OpenStack(s, i)[|OpenStack(s, i)| - 1] == LastNonWs(s, i)
  {
    if IsJsWhitespace(s[i - 1]) {
      BlankAfterOpenIsTop(s, i - 1);
    }
  }

  /** A blank stretch after a non-blank character at `o` reaches up to `i`
      exactly when that character is the last non-blank one before `i`. */
  lemma {:induction false} BlankIff(s: string, o: nat, i: nat)
    requires o < i <= |s| && !IsJsWhitespace(s[o])
    ensures IsBlank(s[o + 1..i]) <==> LastNonWs(s, i) == o
    decreases i - o
  {
    if i > o + 1 {
      BlankIff(s, o, i - 1);
      assert s[o + 1..i] == s[o + 1..i - 1] + [s[i - 1]];
    }
  }

  /** The two halves of an empty pair determine each other. */
  lemma EmptyPair(s: string, o: int, j: int)
    ensures EmptyOpen(s, o) && NextNonWs(s, o + 1) == j <==> EmptyClose(s, j) && LastNonWs(s, j) == o
  {
    if EmptyOpen(s, o) && NextNonWs(s, o + 1) == j {
      assert IsBlank(s[o + 1..j]);
      BlankIff(s, o, j);
    }
    if EmptyClose(s, j) && LastNonWs(s, j) == o {
      assert o + 1 <= j;
      NextNonWsAt(s, o + 1, j);
    }
  }

  lemma {:induction false} NextNonWsAt(s: string, a: nat, j: nat)
    requires a <= j < |s| && !IsJsWhitespace(s[j])
    requires forall k :: a <= k < j ==> IsJsWhitespace(s[k])
    ensures NextNonWs(s, a) == j
    decreases j - a
  {
    if a < j {
      NextNonWsAt(s, a + 1, j);
    }
  }

  // ---------- The scan follows the reference definitions ----------

  lemma FlaggedPush(v: seq<Span>, sp: Span, k: int, why: Reason)
    ensures Flagged(Push(v, sp), k, why) <==> Flagged(v, k, why) || At(k, why) == sp
  {
  }

  /** Index `i` does not split a run of digits and dots. */
  predicate TokenBoundary(s: string, i: nat)
    requires i <= |s|
  {
    i == 0 || i == |s| || !IsDigitDot(s[i - 1]) || !IsDigitDot(s[i])
  }

  /** The cursor agrees with the reference definitions at its position. */
  predicate Tracks(s: string, c: Cursor) {
    && Sound(s, c)
    && c.prev == LastKind(s, c.i)
    && c.stack == OpenStack(s, c.i)
    && TokenBoundary(s, c.i)
  }

  /** The errors of reason `r` at `k` that the token loop still has to report
      once it stands at index `i`. */
  predicate ExpectedFrom(s: string, i: nat, k: int, r: Reason) {
    if r.EmptyParens? then
      (i <= k && EmptyClose(s, k)) || (EmptyOpen(s, k) && i <= NextNonWs(s, k + 1))
    else ScanReason(r) && i <= k && Expected(s, k, r)
  }

  lemma NumberStepTracks(s: string, c: Cursor)
    requires Tracks(s, c) && c.i < |s| && IsDigitDot(s[c.i])
    ensures Tracks(s, NumberStep(s, c))
  {
    var r := NumberStep(s, c);
    OpenStackOverRun(s, c.i, r.i);
    assert IsDigitDot(s[r.i - 1]);
    assert LastKind(s, r.i) == Num;
    assert TokenBoundary(s, r.i);
  }

  lemma OpStepTracks(s: string, c: Cursor)
    requires Tracks(s, c) && c.i < |s| && IsOp(s[c.i])
    ensures Tracks(s, OpStep(s, c))
  {
    var r := OpStep(s, c);
    assert r.i == c.i + 1 && r.prev == Op && r.stack == c.stack;
    assert LastKind(s, c.i + 1) == Op;
    assert OpenStack(s, c.i + 1) == OpenStack(s, c.i);
    assert TokenBoundary(s, c.i + 1);
  }

  lemma CloseStepTracks(s: string, c: Cursor)
    requires Tracks(s, c) && c.i < |s| && s[c.i] == ')'
    ensures Tracks(s, CloseStep(s, c))
  {
    var r := CloseStep(s, c);
    assert r.i == c.i + 1;
    assert r.stack == if |c.stack| == 0 then c.stack else c.stack[..|c.stack| - 1];
    assert OpenStack(s, c.i + 1) == r.stack;
    assert LastKind(s, c.i + 1) == RParen;
    assert TokenBoundary(s, c.i + 1);
    assert Sound(s, r);
  }

  lemma OpenStepTracks(s: string, c: Cursor)
    requires Tracks(s, c) && c.i < |s| && s[c.i] == '('
    ensures Tracks(s, Cursor(c.i + 1, LParen, c.stack + [c.i], c.acc))
  {
    assert LastKind(s, c.i + 1) == LParen;
    assert OpenStack(s, c.i + 1) == OpenStack(s, c.i) + [c.i];
  }

  lemma SkipStepTracks(s: string, c: Cursor)
    requires Tracks(s, c) && c.i < |s|
    requires !IsDigitDot(s[c.i]) && !IsOp(s[c.i]) && s[c.i] != ')' && s[c.i] != '('
    ensures Tracks(s, c.(i := c.i + 1))
  {
    assert LastKind(s, c.i + 1) == LastKind(s, c.i);
    assert OpenStack(s, c.i + 1) == OpenStack(s, c.i);
    StackBelowLater(c.stack, c.i, c.i + 1);
  }

  lemma StepTracks(s: string, c: Cursor)
    requires Tracks(s, c) && c.i < |s|
    ensures Tracks(s, Step(s, c))
  {
    var ch := s[c.i];
    if IsDigitDot(ch) {
      NumberStepTracks(s, c);
    } else if IsOp(ch) {
      OpStepTracks(s, c);
    } else if ch == ')' {
      CloseStepTracks(s, c);
    } else if ch == '(' {
      OpenStepTracks(s, c);
    } else {
      SkipStepTracks(s, c);
    }
  }

  /** What one number token reports: `misplaced-dot` and `lonely-dot` at its
      first character, `double-dot` at each later dot after the first. */
  lemma {:induction false} NumberRunFlags(s: string, i: nat, seenDot: bool, acc: seq<Span>, k: int, why: Reason)
    requires i <= |s| && seenDot == DotEarlierInRun(s, i)
    ensures var r := NumberRun(s, i, seenDot, acc);
      Flagged(r.1, k, why) <==>
        Flagged(acc, k, why) || (why == DoubleDot && i <= k < r.0 && DoubleDotAt(s, k))
    decreases |s| - i
  {
    if i < |s| && IsDigitDot(s[i]) {
      var acc' := DoubleDotCheck(s, i, seenDot, acc);
      assert DotEarlierInRun(s, i + 1) == (seenDot || s[i] == '.');
      NumberRunFlags(s, i + 1, seenDot || s[i] == '.', acc', k, why);
      assert NumberRun(s, i, seenDot, acc) == NumberRun(s, i + 1, seenDot || s[i] == '.', acc');
      FlaggedPush(acc, At(i, DoubleDot), k, why);
      assert DoubleDotAt(s, i) <==> s[i] == '.' && seenDot;
    }
  }

  /** What a number token spanning `[i, j)` reports, in terms of the buffer. */
  predicate NumberFinds(s: string, i: nat, j: nat, prev: Token, k: int, why: Reason)
    requires i < j <= |s|
  {
    || (why == MisplacedDot && k == i && s[i] == '.' && (prev == Num || prev == RParen))
    || (why == DoubleDot && i < k < j && DoubleDotAt(s, k))
    || (why == LonelyDot && k == i && s[i] == '.' && j == i + 1)
  }

  /** The scan side: a number token adds exactly its own findings. */
  lemma NumberStepAdds(s: string, c: Cursor, k: int, why: Reason)
    requires Sound(s, c) && c.i < |s| && IsDigitDot(s[c.i]) && RunStart(s, c.i)
    ensures Flagged(NumberStep(s, c).acc, k, why) <==>
              Flagged(c.acc, k, why) || NumberFinds(s, c.i, NumberStep(s, c).i, c.prev, k, why)
  {
    NumberStepIs(s, c);
    NumberTokenAdds(s, c, NumberRun(s, c.i + 1, s[c.i] == '.', MisplacedDotCheck(s, c)), k, why);
  }

  /** A number token is its first character, then the run after it. */
  lemma NumberStepIs(s: string, c: Cursor)
    requires Sound(s, c) && c.i < |s| && IsDigitDot(s[c.i])
    ensures var run := NumberRun(s, c.i + 1, s[c.i] == '.', MisplacedDotCheck(s, c));
      NumberStep(s, c).i == run.0 && NumberStep(s, c).acc == LonelyDotCheck(s, c.i, run.0, run.1)
  {
  }

  lemma NumberTokenAdds(s: string, c: Cursor, run: (nat, seq<Span>), k: int, why: Reason)
    requires c.i < |s| && IsDigitDot(s[c.i]) && RunStart(s, c.i)
    requires run == NumberRun(s, c.i + 1, s[c.i] == '.', MisplacedDotCheck(s, c))
    ensures c.i < run.0
    ensures Flagged(LonelyDotCheck(s, c.i, run.0, run.1), k, why) <==>
              Flagged(c.acc, k, why) || NumberFinds(s, c.i, run.0, c.prev, k, why)
  {
    var i := c.i;
    ghost var f0 := Flagged(c.acc, k, why);
    ghost var f1 := Flagged(MisplacedDotCheck(s, c), k, why);
    ghost var f2 := Flagged(run.1, k, why);
    ghost var f3 := Flagged(LonelyDotCheck(s, i, run.0, run.1), k, why);
    assert f1 == (f0 || (why == MisplacedDot && k == i && s[i] == '.' && (c.prev == Num || c.prev == RParen))) by {
      MisplacedDotFlags(s, c, k, why);
    }
    assert i < run.0 && f2 == (f1 || (why == DoubleDot && i + 1 <= k < run.0 && DoubleDotAt(s, k))) by {
      DotStartsRun(s, i);
      NumberRunFlags(s, i + 1, s[i] == '.', MisplacedDotCheck(s, c), k, why);
    }
    assert f3 == (f2 || (why == LonelyDot && k == i && s[i] == '.' && run.0 == i + 1)) by {
      LonelyDotFlags(s, i, run.0, run.1, k, why);
    }
  }

  lemma MisplacedDotFlags(s: string, c: Cursor, k: int, why: Reason)
    requires c.i < |s|
    ensures Flagged(MisplacedDotCheck(s, c), k, why) <==>
              Flagged(c.acc, k, why) ||
              (why == MisplacedDot && k == c.i && s[c.i] == '.' && (c.prev == Num || c.prev == RParen))
  {
    FlaggedPush(c.acc, At(c.i, MisplacedDot), k, why);
  }

  /** Right after the first character of a number, a dot has been seen
      exactly when that character is one. */
  lemma DotStartsRun(s: string, i: nat)
    requires i < |s| && IsDigitDot(s[i]) && RunStart(s, i)
    ensures DotEarlierInRun(s, i + 1) == (s[i] == '.')
  {
    assert !DotEarlierInRun(s, i);
  }

  lemma LonelyDotFlags(s: string, i: nat, j: nat, acc: seq<Span>, k: int, why: Reason)
    requires i < |s|
    ensures Flagged(LonelyDotCheck(s, i, j, acc), k, why) <==>
              Flagged(acc, k, why) || (why == LonelyDot && k == i && s[i] == '.' && j == i + 1)
  {
    FlaggedPush(acc, At(i, LonelyDot), k, why);
  }

  /** The reference side: the errors a number token over `[i, j)` settles. */
  lemma NumberRunSettles(s: string, i: nat, j: nat, k: int, why: Reason)
    requires i < j <= |s| && RunStart(s, i)
    requires forall m :: i <= m < j ==> IsDigitDot(s[m])
    requires j == |s| || !IsDigitDot(s[j])
    ensures ExpectedFrom(s, i, k, why) && !ExpectedFrom(s, j, k, why) <==>
              NumberFinds(s, i, j, LastKind(s, i), k, why)
  {
    match why {
      case MisplacedDot =>
        if i < k < j {
          assert !RunStart(s, k);
        }
      case DoubleDot =>
        assert !DotEarlierInRun(s, i);
      case LonelyDot =>
        if i < k < j {
          assert !RunStart(s, k);
        }
        if k == i && s[i] == '.' {
          assert j == i + 1 <==> (i + 1 == |s| || !IsDigitDot(s[i + 1]));
        }
      case EmptyParens =>
        if EmptyOpen(s, k) {
          var n := NextNonWs(s, k + 1);
          assert s[n] == ')' && !IsDigitDot(s[n]);
        }
        if i <= k < j {
          assert !EmptyClose(s, k);
        }
      case _ =>
        if i <= k < j {
          assert IsDigitDot(s[k]);
        }
    }
  }

  lemma NumberStepFlags(s: string, c: Cursor, k: int, why: Reason)
    requires Tracks(s, c) && c.i < |s| && IsDigitDot(s[c.i])
    ensures var r := NumberStep(s, c);
      Flagged(r.acc, k, why) <==>
        Flagged(c.acc, k, why) || (ExpectedFrom(s, c.i, k, why) && !ExpectedFrom(s, r.i, k, why))
  {
    NumberStepAdds(s, c, k, why);
    assert RunStart(s, c.i);
    NumberRunSettles(s, c.i, NumberStep(s, c).i, k, why);
  }

  /** What a `)` at `i` reports, in terms of the buffer. */
  predicate CloseFinds(s: string, i: nat, k: int, why: Reason)
    requires i < |s|
  {
    || (why == UnmatchedClose && k == i && NoneOpen(s, i))
    || (why == EmptyParens && EmptyClose(s, i) && (k == i || k == LastNonWs(s, i)))
  }

  /** Nothing is open exactly when the open stack is empty. */
  lemma NoneOpenIff(s: string, i: nat)
    requires i <= |s|
    ensures NoneOpen(s, i) <==> |OpenStack(s, i)| == 0
  {
    OpenStackIff(s, i);
    if |OpenStack(s, i)| > 0 {
      OpenStackShape(s, i);
      var o := OpenStack(s, i)[0];
      assert o in OpenStack(s, i);
      assert Unclosed(s, o, i);
    }
  }

  /** A `)` at `i` is an empty close exactly when the text between it and the
      `(` on top of the open stack is blank. */
  lemma TopBlankIff(s: string, i: nat, o: nat)
    requires i < |s| && s[i] == ')' && |OpenStack(s, i)| > 0
    requires o == OpenStack(s, i)[|OpenStack(s, i)| - 1] && o < i
    ensures IsBlank(s[o + 1..i]) <==> EmptyClose(s, i) && LastNonWs(s, i) == o
  {
    OpenStackShape(s, i);
    assert s[o] == '(';
    BlankIff(s, o, i);
    if EmptyClose(s, i) {
      BlankAfterOpenIsTop(s, i);
    }
  }

  /** The scan side: a `)` adds exactly its own findings. */
  lemma CloseStepAdds(s: string, c: Cursor, k: int, why: Reason)
    requires Tracks(s, c) && c.i < |s| && s[c.i] == ')'
    ensures Flagged(CloseStep(s, c).acc, k, why) <==> Flagged(c.acc, k, why) || CloseFinds(s, c.i, k, why)
  {
    NoneOpenIff(s, c.i);
    if |c.stack| == 0 {
      UnmatchedCloseAdds(s, c, k, why);
    } else {
      PairedCloseAdds(s, c, k, why);
    }
  }

  lemma UnmatchedCloseAdds(s: string, c: Cursor, k: int, why: Reason)
    requires Tracks(s, c) && c.i < |s| && s[c.i] == ')' && |c.stack| == 0
    ensures Flagged(CloseStep(s, c).acc, k, why) <==>
              Flagged(c.acc, k, why) || (why == UnmatchedClose && k == c.i)
    ensures !EmptyClose(s, c.i)
  {
    if EmptyClose(s, c.i) {
      BlankAfterOpenIsTop(s, c.i);
    }
    assert CloseStep(s, c).acc == Push(c.acc, At(c.i, UnmatchedClose));
    FlaggedPush(c.acc, At(c.i, UnmatchedClose), k, why);
  }

  lemma PairedCloseAdds(s: string, c: Cursor, k: int, why: Reason)
    requires Tracks(s, c) && c.i < |s| && s[c.i] == ')' && |c.stack| > 0
    ensures Flagged(CloseStep(s, c).acc, k, why) <==>
              Flagged(c.acc, k, why) ||
              (why == EmptyParens && EmptyClose(s, c.i) && (k == c.i || k == LastNonWs(s, c.i)))
  {
    var i := c.i;
    var o := c.stack[|c.stack| - 1];
    assert o < i;
    TopBlankIff(s, i, o);
    if EmptyClose(s, i) {
      BlankAfterOpenIsTop(s, i);
    }
    ClosePairFlags(s, c, o, k, why);
  }

  /** A `)` with an open `(` at `o` flags both exactly when the text between is blank. */
  lemma ClosePairFlags(s: string, c: Cursor, o: nat, k: int, why: Reason)
    requires Sound(s, c) && c.i < |s| && s[c.i] == ')' && |c.stack| > 0
    requires o == c.stack[|c.stack| - 1]
    ensures Flagged(CloseStep(s, c).acc, k, why) <==>
              Flagged(c.acc, k, why) ||
              (why == EmptyParens && IsBlank(s[o + 1..c.i]) && (k == c.i || k == o))
  {
    var i := c.i;
    var acc1 := Push(c.acc, At(o, EmptyParens));
    FlaggedPush(c.acc, At(o, EmptyParens), k, why);
    FlaggedPush(acc1, At(i, EmptyParens), k, why);
    if IsBlank(s[o + 1..i]) {
      assert CloseStep(s, c).acc == Push(acc1, At(i, EmptyParens));
    } else {
      assert CloseStep(s, c).acc == c.acc;
    }
  }

  /** The reference side: the errors a `)` at `i` settles. */
  lemma CloseSettles(s: string, i: nat, k: int, why: Reason)
    requires i < |s| && s[i] == ')'
    ensures ExpectedFrom(s, i, k, why) && !ExpectedFrom(s, i + 1, k, why) <==> CloseFinds(s, i, k, why)
  {
    if why.EmptyParens? {
      EmptyPair(s, k, i);
    }
  }

  lemma CloseStepFlags(s: string, c: Cursor, k: int, why: Reason)
    requires Tracks(s, c) && c.i < |s| && s[c.i] == ')'
    ensures var r := CloseStep(s, c);
      Flagged(r.acc, k, why) <==>
        Flagged(c.acc, k, why) || (ExpectedFrom(s, c.i, k, why) && !ExpectedFrom(s, r.i, k, why))
  {
    CloseStepAdds(s, c, k, why);
    CloseSettles(s, c.i, k, why);
  }

  /** The reference side for an operator at `i`: only its own `leading-op` or
      `double-op` is settled. */
  lemma OpSettles(s: string, i: nat, k: int, why: Reason)
    requires i < |s| && IsOp(s[i])
    ensures ExpectedFrom(s, i, k, why) && !ExpectedFrom(s, i + 1, k, why) <==>
              k == i && (why == LeadingOp || why == DoubleOp) && Expected(s, i, why)
  {
    if why.EmptyParens? && EmptyOpen(s, k) {
      var n := NextNonWs(s, k + 1);
      assert s[n] == ')';
    }
  }

  lemma OpStepFlags(s: string, c: Cursor, k: int, why: Reason)
    requires Tracks(s, c) && c.i < |s| && IsOp(s[c.i])
    ensures var r := OpStep(s, c);
      Flagged(r.acc, k, why) <==>
        Flagged(c.acc, k, why) || (ExpectedFrom(s, c.i, k, why) && !ExpectedFrom(s, r.i, k, why))
  {
    var i := c.i;
    OpSettles(s, i, k, why);
    FlaggedPush(c.acc, At(i, LeadingOp), k, why);
    FlaggedPush(c.acc, At(i, DoubleOp), k, why);
  }

  /** The reference side for a space, a `(` or an invalid character at `i`:
      nothing is settled there. */
  lemma QuietSettles(s: string, i: nat, k: int, why: Reason)
    requires i < |s| && !IsDigitDot(s[i]) && !IsOp(s[i]) && s[i] != ')'
    ensures !(ExpectedFrom(s, i, k, why) && !ExpectedFrom(s, i + 1, k, why))
  {
    if why.EmptyParens? && EmptyOpen(s, k) {
      var n := NextNonWs(s, k + 1);
      assert s[n] == ')';
    }
  }

  lemma StepFlags(s: string, c: Cursor, k: int, why: Reason)
    requires Tracks(s, c) && c.i < |s|
    ensures var r := Step(s, c);
      Flagged(r.acc, k, why) <==>
        Flagged(c.acc, k, why) || (ExpectedFrom(s, c.i, k, why) && !ExpectedFrom(s, r.i, k, why))
  {
    var ch := s[c.i];
    if IsDigitDot(ch) {
      NumberStepFlags(s, c, k, why);
    } else if IsOp(ch) {
      OpStepFlags(s, c, k, why);
    } else if ch == ')' {
      CloseStepFlags(s, c, k, why);
    } else {
      QuietSettles(s, c.i, k, why);
      assert Step(s, c).acc == c.acc && Step(s, c).i == c.i + 1;
    }
  }

  /** The token loop reports exactly the scan errors from its position on. */
  lemma {:induction false} ScanFlags(s: string, c: Cursor, k: int, why: Reason)
    requires Tracks(s, c)
    ensures Tracks(s, Scan(s, c))
    ensures Flagged(Scan(s, c).acc, k, why) <==> Flagged(c.acc, k, why) || ExpectedFrom(s, c.i, k, why)
    decreases |s| - c.i
  {
    if c.i < |s| {
      var c' := Step(s, c);
      StepTracks(s, c);
      StepFlags(s, c, k, why);
      ScanFlags(s, c', k, why);
    }
  }

  /** `Validate` reports an error of reason `why` at index `k` exactly when the
      reference definition says index `k` has that error. */
  lemma ValidateFlags(s: string, k: int, why: Reason)
    ensures Flagged(Validate(s).errors, k, why) <==> Expected(s, k, why)
  {
    ScannedFlags(s, k, why);
    var st := Scanned(s);
    var v1 := if st.prev == Op then Push(st.acc, At(|s| - 1, TrailingOp)) else st.acc;
    assert Validate(s).errors == PushOpens(v1, st.stack);
    FlaggedPush(st.acc, At(|s| - 1, TrailingOp), k, why);
    OpenStackIff(s, |s|);
    ExpectedParts(s, k, why);
  }

  /** After the pre-pass and the token loop, the findings are the invalid
      characters and the scan errors of the whole buffer. */
  lemma ScannedFlags(s: string, k: int, why: Reason)
    ensures Tracks(s, Scanned(s))
    ensures Flagged(Scanned(s).acc, k, why) <==>
              (why == InvalidChar && 0 <= k < |s| && !IsAllowed(s[k])) || ExpectedFrom(s, 0, k, why)
  {
    var pre := InvalidChars(s, 0, []);
    var c0 := Cursor(0, Start, [], pre);
    assert Tracks(s, c0);
    ScanFlags(s, c0, k, why);
  }

  /** Each reason is reported by exactly one part of `validate`: the
      pre-pass, the token loop, or the two checks after it. */
  lemma ExpectedParts(s: string, k: int, why: Reason)
    ensures Expected(s, k, why) <==>
              || (why == InvalidChar && 0 <= k < |s| && !IsAllowed(s[k]))
              || ExpectedFrom(s, 0, k, why)
              || (why == TrailingOp && TrailingOpAt(s, k))
              || (why == UnmatchedOpen && UnmatchedOpenAt(s, k))
  {
    if why.EmptyParens? && EmptyOpen(s, k) {
      assert 0 <= NextNonWs(s, k + 1);
    }
  }

  /** The errors `Validate` reports are one-character spans, so the reference
      definitions describe the whole error list. */
  lemma ValidateExactly(s: string, sp: Span)
    ensures sp in Validate(s).errors <==>
              sp.end == sp.start + 1 && Expected(s, sp.start, sp.reason)
  {
    ValidateFlags(s, sp.start, sp.reason);
    assert sp.end == sp.start + 1 ==> sp == At(sp.start, sp.reason);
  }
}
