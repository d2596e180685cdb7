/** The calculator display: HTML escaping, merging of highlight ranges,
    laying the buffer out as plain and highlighted pieces, and the search for
    literal zero divisors. */
module CalcDisplay {
  import opened JsText
  import opened CalcValidate

  // ---------- escapeHtml ----------

  /** The characters that `escapeHtml` replaces by entities. */
  predicate IsHtmlSpecial(c: char) {
    c == '&' || c == '<' || c == '>' || c == '"' || c == '\''
  }

  function EscapeChar(c: char): (r: string)
    ensures |r| >= 1
    ensures IsHtmlSpecial(c) <==> r[0] == '&'
    ensures forall k :: 0 <= k < |r| ==> r[k] !in {'<', '>', '"', '\''}
  {
    match c
    case '&' => "&amp;"
    case '<' => "&lt;"
    case '>' => "&gt;"
    case '"' => "&quot;"
    case '\'' => "&#39;"
    case _ => [c]
  }

  /** `escapeHtml(s)`: every special character becomes its entity. */
  function EscapeHtml(s: string): (r: string)
    ensures |r| >= |s|
    ensures forall k :: 0 <= k < |r| ==> r[k] !in {'<', '>', '"', '\''}
  {
    if |s| == 0 then "" else EscapeChar(s[0]) + EscapeHtml(s[1..])
  }

  /** The character at the head of escaped text and how many characters
      spell it: one of the five entities, or the character itself. */
  function DecodeHead(t: string): (r: (char, nat))
    requires |t| > 0
    ensures 1 <= r.1 <= |t|
  {
    if t[0] != '&' then (t[0], 1)
    else if |t| >= 5 && t[1] == 'a' && t[2] == 'm' && t[3] == 'p' && t[4] == ';' then ('&', 5)
    else if |t| >= 4 && t[1] == 'l' && t[2] == 't' && t[3] == ';' then ('<', 4)
    else if |t| >= 4 && t[1] == 'g' && t[2] == 't' && t[3] == ';' then ('>', 4)
    else if |t| >= 6 && t[1] == 'q' && t[2] == 'u' && t[3] == 'o' && t[4] == 't' && t[5] == ';' then ('"', 6)
    else if |t| >= 5 && t[1] == '#' && t[2] == '3' && t[3] == '9' && t[4] == ';' then ('\'', 5)
    else ('&', 1)
  }

  /** Decoding of the five entities `escapeHtml` produces. */
  function Unescape(t: string): string
    decreases |t|
  {
    if |t| == 0 then ""
    else
      var (c, n) := DecodeHead(t);
      [c] + Unescape(t[n..])
  }

  /** Decoding undoes the escape of one leading character. */
  lemma UnescapeCons(c: char, rest: string)
    ensures Unescape(EscapeChar(c) + rest) == [c] + Unescape(rest)
  {
    var e := EscapeChar(c);
    var t := e + rest;
    assert forall k :: 0 <= k < |e| ==> t[k] == e[k];
    assert t[|e|..] == rest;
    assert DecodeHead(t) == (c, |e|);
  }

  /** Escaping loses nothing: decoding the entities gives the text back. */
  lemma {:induction false} UnescapeEscape(s: string)
    ensures Unescape(EscapeHtml(s)) == s
  {
    if |s| > 0 {
      UnescapeEscape(s[1..]);
      UnescapeCons(s[0], EscapeHtml(s[1..]));
      assert s == [s[0]] + s[1..];
    }
  }

  /** Text without special characters is shown as is. */
  lemma {:induction false} EscapePlain(s: string)
    requires forall k :: 0 <= k < |s| ==> !IsHtmlSpecial(s[k])
    ensures EscapeHtml(s) == s
  {
    if |s| > 0 {
      EscapePlain(s[1..]);
      assert s == [s[0]] + s[1..];
    }
  }

  lemma {:induction false} EscapeAppend(a: string, b: string)
    ensures EscapeHtml(a + b) == EscapeHtml(a) + EscapeHtml(b)
  {
    if |a| > 0 {
      assert (a + b)[1..] == a[1..] + b;
      EscapeAppend(a[1..], b);
    } else {
      assert a + b == b;
    }
  }

  // ---------- Sorting and merging ranges ----------

  predicate SortedByStart(rs: seq<Span>) {
    forall k, l :: 0 <= k < l < |rs| ==> rs[k].start <= rs[l].start
  }

  lemma SortedCons(h: Span, t: seq<Span>)
    requires SortedByStart(t) && (|t| == 0 || h.start <= t[0].start)
    ensures SortedByStart([h] + t)
  {
    var r := [h] + t;
    forall k, l | 0 <= k < l < |r|
      ensures r[k].start <= r[l].start
    {
      if k == 0 {
        assert r[l] == t[l - 1];
        assert t[0].start <= t[l - 1].start;
      } else {
        assert r[k] == t[k - 1] && r[l] == t[l - 1];
      }
    }
  }

  /** Inserts `x` before the first range that does not start earlier. */
  function InsertByStart(x: Span, rs: seq<Span>): (r: seq<Span>)
    requires SortedByStart(rs)
    ensures SortedByStart(r)
    ensures multiset(r) == multiset(rs) + multiset{x}
    ensures |r| == |rs| + 1
    ensures r[0] == if |rs| == 0 || x.start <= rs[0].start then x else rs[0]
  {
    if |rs| == 0 || x.start <= rs[0].start then
      SortedCons(x, rs);
      [x] + rs
    else
      assert SortedByStart(rs[1..]);
      var tail := InsertByStart(x, rs[1..]);
      assert rs == [rs[0]] + rs[1..];
      assert |rs| > 1 ==> rs[0].start <= rs[1].start;
      SortedCons(rs[0], tail);
      [rs[0]] + tail
  }

  /** `ranges.sort((a, b) => a.start - b.start)`. */
  function SortByStart(rs: seq<Span>): (r: seq<Span>)
    ensures SortedByStart(r)
    ensures multiset(r) == multiset(rs)
    ensures |r| == |rs|
  {
    if |rs| == 0 then []
    else
      assert rs == [rs[0]] + rs[1..];
      InsertByStart(rs[0], SortByStart(rs[1..]))
  }

  /** A merged highlight: the characters `[start, end)`. */
  datatype Range = Range(start: int, end: int)

  /** Index `x` lies inside one of the ranges. */
  predicate Covered(rs: seq<Span>, x: int) {
    exists k :: 0 <= k < |rs| && rs[k].start <= x < rs[k].end
  }

  predicate CoveredR(ms: seq<Range>, x: int) {
    exists k :: 0 <= k < |ms| && ms[k].start <= x < ms[k].end
  }

  /** Merged ranges are increasing with a gap between any two of them. */
  predicate Separated(ms: seq<Range>) {
    forall k :: 0 <= k < |ms| - 1 ==> ms[k].end < ms[k + 1].start
  }

  /** One turn of the merge loop: a range starting after the last merged end
      opens a new merged range, any other one stretches the last. */
  function Absorb(ms: seq<Range>, r: Span): seq<Range> {
    if |ms| == 0 || r.start > ms[|ms| - 1].end then ms + [Range(r.start, r.end)]
    else
      var last := ms[|ms| - 1];
      ms[..|ms| - 1] + [Range(last.start, if last.end >= r.end then last.end else r.end)]
  }

  /** The merge loop of `renderDisplay` over already sorted ranges. */
  function Merge(rs: seq<Span>): (ms: seq<Range>)
    requires SortedByStart(rs)
    ensures |ms| <= |rs|
    ensures |rs| > 0 ==> |ms| > 0 && ms[0].start == rs[0].start
    ensures forall k :: 0 <= k < |ms| ==> exists j :: 0 <= j < |rs| && ms[k].start == rs[j].start
    ensures Separated(ms)
    ensures forall x :: CoveredR(ms, x) <==> Covered(rs, x)
  {
    if |rs| == 0 then []
    else
      var prefix := rs[..|rs| - 1];
      var r := rs[|rs| - 1];
      assert rs == prefix + [r];
      assert SortedByStart(prefix);
      var m := Merge(prefix);
      MergeStep(prefix, m, r);
      Absorb(m, r)
  }

  lemma MergeStep(prefix: seq<Span>, m: seq<Range>, r: Span)
    requires SortedByStart(prefix + [r])
    requires |m| <= |prefix|
    requires |prefix| > 0 ==> |m| > 0 && m[0].start == prefix[0].start
    requires forall k :: 0 <= k < |m| ==> exists j :: 0 <= j < |prefix| && m[k].start == prefix[j].start
    requires Separated(m)
    requires forall x :: CoveredR(m, x) <==> Covered(prefix, x)
    ensures |Absorb(m, r)| <= |prefix| + 1
    ensures Absorb(m, r)[0].start == (prefix + [r])[0].start
    ensures forall k :: 0 <= k < |Absorb(m, r)| ==>
              exists j :: 0 <= j < |prefix + [r]| && Absorb(m, r)[k].start == (prefix + [r])[j].start
    ensures Separated(Absorb(m, r))
    ensures forall x :: CoveredR(Absorb(m, r), x) <==> Covered(prefix + [r], x)
  {
    var rs := prefix + [r];
    var a := Absorb(m, r);
    forall k | 0 <= k < |a|
      ensures exists j :: 0 <= j < |rs| && a[k].start == rs[j].start
    {
      if k < |m| {
        var j :| 0 <= j < |prefix| && m[k].start == prefix[j].start;
        assert rs[j] == prefix[j];
      } else {
        assert a[k].start == rs[|rs| - 1].start;
      }
    }
    forall x
      ensures CoveredR(a, x) <==> Covered(rs, x)
    {
      CoverageStep(prefix, m, r, x);
    }
    if |prefix| == 0 {
      assert a == [Range(r.start, r.end)];
    } else {
      assert a[0].start == m[0].start;
    }
  }

  lemma CoverageStep(prefix: seq<Span>, m: seq<Range>, r: Span, x: int)
    requires SortedByStart(prefix + [r])
    requires forall k :: 0 <= k < |m| ==> exists j :: 0 <= j < |prefix| && m[k].start == prefix[j].start
    requires forall y :: CoveredR(m, y) <==> Covered(prefix, y)
    ensures CoveredR(Absorb(m, r), x) <==> Covered(prefix + [r], x)
  {
    var rs := prefix + [r];
    var a := Absorb(m, r);
    assert Covered(rs, x) <==> Covered(prefix, x) || r.start <= x < r.end by {
      if Covered(prefix, x) {
        var k :| 0 <= k < |prefix| && prefix[k].start <= x < prefix[k].end;
        assert rs[k] == prefix[k];
      }
      if Covered(rs, x) {
        var k :| 0 <= k < |rs| && rs[k].start <= x < rs[k].end;
        if k < |prefix| {
          assert rs[k] == prefix[k];
        }
      }
      if r.start <= x < r.end {
        assert rs[|rs| - 1] == r;
      }
    }
    if |m| == 0 || r.start > m[|m| - 1].end {
      assert CoveredR(a, x) <==> CoveredR(m, x) || r.start <= x < r.end by {
        if CoveredR(a, x) {
          var k :| 0 <= k < |a| && a[k].start <= x < a[k].end;
          if k < |m| {
            assert a[k] == m[k];
          }
        }
        if CoveredR(m, x) {
          var k :| 0 <= k < |m| && m[k].start <= x < m[k].end;
          assert a[k] == m[k];
        }
        if r.start <= x < r.end {
          assert a[|a| - 1] == Range(r.start, r.end);
        }
      }
    } else {
      var last := m[|m| - 1];
      var j :| 0 <= j < |prefix| && last.start == prefix[j].start;
      assert rs[j] == prefix[j] && rs[|rs| - 1] == r;
      assert last.start <= r.start;
      var newEnd := if last.end >= r.end then last.end else r.end;
      assert CoveredR(a, x) <==> CoveredR(m, x) || r.start <= x < r.end by {
        if CoveredR(a, x) {
          var k :| 0 <= k < |a| && a[k].start <= x < a[k].end;
          if k < |m| - 1 {
            assert a[k] == m[k];
          } else {
            assert a[k] == Range(last.start, newEnd);
            if x < last.end {
              assert m[|m| - 1].start <= x < m[|m| - 1].end;
            }
          }
        }
        if CoveredR(m, x) {
          var k :| 0 <= k < |m| && m[k].start <= x < m[k].end;
          if k < |m| - 1 {
            assert a[k] == m[k];
          } else {
            assert a[|a| - 1] == Range(last.start, newEnd);
          }
        }
        if r.start <= x < r.end {
          assert a[|a| - 1] == Range(last.start, newEnd);
        }
      }
    }
  }

  // ---------- Laying the buffer out ----------

  /** A stretch of the display: shown plainly or inside an error span. */
  datatype Piece = Plain(text: string) | Marked(text: string)

  /** One turn of the loop over merged ranges: the plain text since index
      `i`, if any, then the highlighted range. */
  function Turn(str: string, r: Range, i: int): seq<Piece> {
    (if i < r.start then [Plain(JsSlice(str, i, r.start))] else [])
    + [Marked(JsSlice(str, r.start, r.end))]
  }

  /** The loop over merged ranges, continuing from index `i`, then the rest
      of the buffer. */
  function Layout(str: string, ms: seq<Range>, i: int): seq<Piece>
    decreases |ms|
  {
    if |ms| == 0 then
      (if i < |str| then [Plain(JsSlice(str, i, |str|))] else [])
    else Turn(str, ms[0], i) + Layout(str, ms[1..], ms[0].end)
  }

  function PieceHtml(p: Piece): string {
    match p
    case Plain(t) => EscapeHtml(t)
    case Marked(t) => "<span class=\"err\">" + EscapeHtml(t) + "</span>"
  }

  function PiecesHtml(ps: seq<Piece>): string
    decreases |ps|
  {
    if |ps| == 0 then "" else PieceHtml(ps[0]) + PiecesHtml(ps[1..])
  }

  /** The text the pieces carry, in order. */
  function Texts(ps: seq<Piece>): string
    decreases |ps|
  {
    if |ps| == 0 then "" else ps[0].text + Texts(ps[1..])
  }

  /** `renderDisplay(str, ranges)`: the markup put into the display. */
  function RenderDisplay(str: string, ranges: seq<Span>): (r: string)
    ensures |ranges| == 0 ==> |r| >= |str| && forall k :: 0 <= k < |r| ==> r[k] != '<'
  {
    if |ranges| == 0 then EscapeHtml(str)
    else PiecesHtml(Layout(str, Merge(SortByStart(ranges)), 0))
  }

  /** Merged ranges that stay inside the buffer, from index `i` on. */
  predicate InBounds(ms: seq<Range>, i: int, n: int) {
    && 0 <= i <= n
    && (forall k :: 0 <= k < |ms| ==> ms[k].start <= ms[k].end <= n)
    && (|ms| > 0 ==> i <= ms[0].start)
  }

  /** For merged ranges inside the buffer, the pieces spell out the buffer
      from `i` on: nothing is lost, repeated or reordered. */
  lemma {:induction false} TextsAppend(a: seq<Piece>, b: seq<Piece>)
    ensures Texts(a + b) == Texts(a) + Texts(b)
    decreases |a|
  {
    if |a| > 0 {
      assert (a + b)[1..] == a[1..] + b;
      TextsAppend(a[1..], b);
    } else {
      assert a + b == b;
    }
  }

  lemma TurnSpells(str: string, r: Range, i: int)
    requires 0 <= i <= r.start <= r.end <= |str|
    ensures Texts(Turn(str, r, i)) == str[i..r.end]
  {
    JsSliceInside(str, r.start, r.end);
    var mid := [Marked(str[r.start..r.end])];
    assert Texts(mid) == str[r.start..r.end];
    if i < r.start {
      JsSliceInside(str, i, r.start);
      var head := [Plain(str[i..r.start])];
      assert Turn(str, r, i) == head + mid;
      TextsAppend(head, mid);
      assert str[i..r.end] == str[i..r.start] + str[r.start..r.end];
    } else {
      assert Turn(str, r, i) == mid;
    }
  }

  lemma {:induction false} LayoutSpellsBuffer(str: string, ms: seq<Range>, i: int)
    requires Separated(ms) && InBounds(ms, i, |str|)
    ensures Texts(Layout(str, ms, i)) == str[i..]
    decreases |ms|
  {
    if |ms| > 0 {
      RestInBounds(ms, i, |str|);
      LayoutSpellsBuffer(str, ms[1..], ms[0].end);
      LayoutTurn(str, ms, i);
    } else {
      LayoutTail(str, i);
    }
  }

  /** The ranges after the first stay separated and begin after its end. */
  lemma RestInBounds(ms: seq<Range>, i: int, n: int)
    requires Separated(ms) && InBounds(ms, i, n) && |ms| > 0
    ensures Separated(ms[1..]) && InBounds(ms[1..], ms[0].end, n)
  {
    assert |ms| > 1 ==> ms[1..][0] == ms[1];
  }

  /** One turn of the loop spells the buffer up to the end of its range. */
  lemma LayoutTurn(str: string, ms: seq<Range>, i: int)
    requires InBounds(ms, i, |str|) && |ms| > 0 && ms[0].end <= |str|
    requires Texts(Layout(str, ms[1..], ms[0].end)) == str[ms[0].end..]
    ensures Texts(Layout(str, ms, i)) == str[i..]
  {
    var r := ms[0];
    TurnSpells(str, r, i);
    TextsJoin(Layout(str, ms, i), Turn(str, r, i), Layout(str, ms[1..], r.end), str[i..r.end], str[r.end..]);
    SliceJoin(str, i, r.end);
  }

  lemma TextsJoin(whole: seq<Piece>, a: seq<Piece>, b: seq<Piece>, x: string, y: string)
    requires whole == a + b && Texts(a) == x && Texts(b) == y
    ensures Texts(whole) == x + y
  {
    TextsAppend(a, b);
  }

  lemma SliceJoin(str: string, i: int, j: int)
    requires 0 <= i <= j <= |str|
    ensures str[i..] == str[i..j] + str[j..]
  {
  }

  /** After the last range, the rest of the buffer is one plain piece. */
  lemma LayoutTail(str: string, i: int)
    requires 0 <= i <= |str|
    ensures Texts(Layout(str, [], i)) == str[i..]
  {
    if i < |str| {
      JsSliceInside(str, i, |str|);
      assert Texts([Plain(str[i..])]) == str[i..];
    }
  }

  /** Every range lies inside a buffer of length `n`. */
  predicate WithinBuffer(rs: seq<Span>, n: int) {
    forall j :: 0 <= j < |rs| ==> 0 <= rs[j].start <= rs[j].end <= n
  }

  predicate RangesWithin(ms: seq<Range>, n: int) {
    forall k :: 0 <= k < |ms| ==> ms[k].start <= ms[k].end <= n
  }

  lemma AbsorbWithin(m: seq<Range>, r: Span, n: int)
    requires RangesWithin(m, n) && r.start <= r.end <= n
    ensures RangesWithin(Absorb(m, r), n)
  {
    var a := Absorb(m, r);
    if |m| > 0 && r.start <= m[|m| - 1].end {
      assert forall k :: 0 <= k < |m| - 1 ==> a[k] == m[k];
    } else {
      assert forall k :: 0 <= k < |m| ==> a[k] == m[k];
    }
  }

  lemma {:induction false} MergeWithin(rs: seq<Span>, n: int)
    requires SortedByStart(rs) && WithinBuffer(rs, n)
    ensures RangesWithin(Merge(rs), n)
    decreases |rs|
  {
    if |rs| > 0 {
      var prefix := rs[..|rs| - 1];
      var r := rs[|rs| - 1];
      assert rs == prefix + [r];
      assert SortedByStart(prefix) && WithinBuffer(prefix, n);
      MergeWithin(prefix, n);
      AbsorbWithin(Merge(prefix), r, n);
    }
  }

  lemma MergeInBounds(rs: seq<Span>, n: int)
    requires SortedByStart(rs) && WithinBuffer(rs, n) && n >= 0
    ensures InBounds(Merge(rs), 0, n)
  {
    MergeWithin(rs, n);
  }

  /** Whatever ranges the validator or the evaluator report, the highlighted
      display shows the buffer itself, in order, split into pieces. */
  lemma RenderSpellsBuffer(str: string, ranges: seq<Span>)
    requires WithinBuffer(ranges, |str|)
    ensures Texts(Layout(str, Merge(SortByStart(ranges)), 0)) == str
  {
    var sorted := SortByStart(ranges);
    forall j | 0 <= j < |sorted|
      ensures 0 <= sorted[j].start <= sorted[j].end <= |str|
    {
      assert sorted[j] in multiset(ranges);
    }
    MergeInBounds(sorted, |str|);
    LayoutSpellsBuffer(str, Merge(sorted), 0);
  }

  // ---------- Which characters are highlighted ----------

  /** For each character the pieces carry, in order, whether it sits inside
      a highlighted piece. */
  function Marks(ps: seq<Piece>): (m: seq<bool>)
    ensures |m| == |Texts(ps)|
    decreases |ps|
  {
    if |ps| == 0 then [] else seq(|ps[0].text|, _ => ps[0].Marked?) + Marks(ps[1..])
  }

  lemma {:induction false} MarksAppend(a: seq<Piece>, b: seq<Piece>)
    ensures Marks(a + b) == Marks(a) + Marks(b)
    decreases |a|
  {
    if |a| > 0 {
      assert (a + b)[0] == a[0];
      assert (a + b)[1..] == a[1..] + b;
      MarksAppend(a[1..], b);
    } else {
      assert a + b == b;
    }
  }

  /** In one turn of the loop, the plain text before the range is unmarked
      and the range itself is marked. */
  lemma TurnMarks(str: string, r: Range, i: int)
    requires 0 <= i <= r.start <= r.end <= |str|
    ensures |Marks(Turn(str, r, i))| == r.end - i
    ensures forall j :: 0 <= j < r.end - i ==> Marks(Turn(str, r, i))[j] == (r.start <= i + j)
  {
    TurnSpells(str, r, i);
    JsSliceInside(str, r.start, r.end);
    var mid := [Marked(str[r.start..r.end])];
    assert Marks(mid) == seq(r.end - r.start, _ => true);
    if i < r.start {
      JsSliceInside(str, i, r.start);
      var head := [Plain(str[i..r.start])];
      assert Marks(head) == seq(r.start - i, _ => false);
      MarksAppend(head, mid);
    }
  }

  /** Separated ranges lie in order: each later range starts after the
      first one ends. */
  lemma {:induction false} SeparatedIncreasing(ms: seq<Range>, k: int)
    requires Separated(ms) && forall j :: 0 <= j < |ms| ==> ms[j].start <= ms[j].end
    requires 0 < k < |ms|
    ensures ms[0].end < ms[k].start
    decreases k
  {
    if k > 1 {
      SeparatedIncreasing(ms, k - 1);
    }
  }

  /** For merged ranges inside the buffer, a character from `i` on is marked
      exactly when a range covers it. */
  lemma {:induction false} LayoutMarks(str: string, ms: seq<Range>, i: int)
    requires Separated(ms) && InBounds(ms, i, |str|)
    ensures |Marks(Layout(str, ms, i))| == |str| - i
    ensures forall x :: i <= x < |str| ==> Marks(Layout(str, ms, i))[x - i] == CoveredR(ms, x)
    decreases |ms|
  {
    LayoutSpellsBuffer(str, ms, i);
    if |ms| > 0 {
      RestInBounds(ms, i, |str|);
      LayoutMarks(str, ms[1..], ms[0].end);
      LayoutMarksTurn(str, ms, i);
    } else {
      LayoutTail(str, i);
      if i < |str| {
        JsSliceInside(str, i, |str|);
        assert Marks([Plain(str[i..])]) == seq(|str| - i, _ => false);
      }
    }
  }

  /** One turn of `LayoutMarks`: the turn's pieces mark its range, and the
      rest of the layout marks what the later ranges cover. */
  lemma LayoutMarksTurn(str: string, ms: seq<Range>, i: int)
    requires Separated(ms) && InBounds(ms, i, |str|) && |ms| > 0
    requires |Marks(Layout(str, ms[1..], ms[0].end))| == |str| - ms[0].end
    requires forall x :: ms[0].end <= x < |str| ==>
               Marks(Layout(str, ms[1..], ms[0].end))[x - ms[0].end] == CoveredR(ms[1..], x)
    ensures forall x :: i <= x < |str| ==> Marks(Layout(str, ms, i))[x - i] == CoveredR(ms, x)
  {
    var r := ms[0];
    var t := Turn(str, r, i);
    var rest := Layout(str, ms[1..], r.end);
    TurnMarks(str, r, i);
    MarksAppend(t, rest);
    assert Layout(str, ms, i) == t + rest;
    forall x | i <= x < |str|
      ensures Marks(Layout(str, ms, i))[x - i] == CoveredR(ms, x)
    {
      if x < r.end {
        assert Marks(Layout(str, ms, i))[x - i] == Marks(t)[x - i];
        if x < r.start {
          forall k | 0 <= k < |ms|
            ensures !(ms[k].start <= x < ms[k].end)
          {
            if k > 0 {
              SeparatedIncreasing(ms, k);
            }
          }
        }
      } else {
        assert Marks(Layout(str, ms, i))[x - i] == Marks(rest)[x - r.end];
        CoveredAfterFirst(ms, x);
      }
    }
  }

  /** Past the end of the first range, only the later ranges can cover. */
  lemma CoveredAfterFirst(ms: seq<Range>, x: int)
    requires |ms| > 0 && ms[0].end <= x
    ensures CoveredR(ms, x) <==> CoveredR(ms[1..], x)
  {
    if CoveredR(ms, x) {
      var k :| 0 <= k < |ms| && ms[k].start <= x < ms[k].end;
      assert ms[1..][k - 1] == ms[k];
    }
    if CoveredR(ms[1..], x) {
      var k :| 0 <= k < |ms| - 1 && ms[1..][k].start <= x < ms[1..][k].end;
      assert ms[k + 1] == ms[1..][k];
    }
  }

  /** Sorting does not change which indices the ranges cover. */
  lemma CoveredSorted(rs: seq<Span>, x: int)
    ensures Covered(SortByStart(rs), x) <==> Covered(rs, x)
  {
    var sorted := SortByStart(rs);
    if Covered(rs, x) {
      var k :| 0 <= k < |rs| && rs[k].start <= x < rs[k].end;
      assert rs[k] in multiset(sorted);
      var j :| 0 <= j < |sorted| && sorted[j] == rs[k];
    }
    if Covered(sorted, x) {
      var k :| 0 <= k < |sorted| && sorted[k].start <= x < sorted[k].end;
      assert sorted[k] in multiset(rs);
      var j :| 0 <= j < |rs| && rs[j] == sorted[k];
    }
  }

  /** The highlighted display marks exactly the characters some reported
      range covers, and shows every other character plainly. */
  lemma RenderMarksCovered(str: string, ranges: seq<Span>)
    requires WithinBuffer(ranges, |str|)
    ensures var ps := Layout(str, Merge(SortByStart(ranges)), 0);
            && |Marks(ps)| == |str|
            && forall x :: 0 <= x < |str| ==> Marks(ps)[x] == Covered(ranges, x)
  {
    var sorted := SortByStart(ranges);
    forall j | 0 <= j < |sorted|
      ensures 0 <= sorted[j].start <= sorted[j].end <= |str|
    {
      assert sorted[j] in multiset(ranges);
    }
    MergeInBounds(sorted, |str|);
    LayoutMarks(str, Merge(sorted), 0);
    forall x | 0 <= x < |str|
      ensures CoveredR(Merge(sorted), x) == Covered(ranges, x)
    {
      CoveredSorted(ranges, x);
    }
  }

  /** `renderDisplay(str, ranges)` for ranges inside the buffer: the markup
      is a run of pieces that spell the buffer, and a character is inside a
      highlighted piece exactly when some range covers it. */
  lemma RenderDisplayPieces(str: string, ranges: seq<Span>)
    requires WithinBuffer(ranges, |str|)
    ensures exists ps :: && RenderDisplay(str, ranges) == PiecesHtml(ps)
                         && Texts(ps) == str
                         && |Marks(ps)| == |str|
                         && forall x :: 0 <= x < |str| ==> Marks(ps)[x] == Covered(ranges, x)
  {
    var ps := Layout(str, Merge(SortByStart(ranges)), 0);
    if |ranges| == 0 {
      ps := Layout(str, [], 0);
      FastPathAgrees(str);
      LayoutSpellsBuffer(str, [], 0);
      LayoutMarks(str, [], 0);
      assert str[0..] == str;
    } else {
      RenderSpellsBuffer(str, ranges);
      RenderMarksCovered(str, ranges);
    }
    assert RenderDisplay(str, ranges) == PiecesHtml(ps);
  }

  /** Concatenating the escaped pieces escapes their concatenation when none
      of them is highlighted. */
  lemma {:induction false} PlainPiecesHtml(ps: seq<Piece>)
    requires forall k :: 0 <= k < |ps| ==> ps[k].Plain?
    ensures PiecesHtml(ps) == EscapeHtml(Texts(ps))
    decreases |ps|
  {
    if |ps| > 0 {
      PlainPiecesHtml(ps[1..]);
      EscapeAppend(ps[0].text, Texts(ps[1..]));
    }
  }

  /** With no ranges, the general loop would produce the same markup as the
      early return: the whole buffer, escaped. */
  lemma FastPathAgrees(str: string)
    ensures RenderDisplay(str, []) == PiecesHtml(Layout(str, [], 0))
  {
    var ps := Layout(str, [], 0);
    PlainPiecesHtml(ps);
    LayoutSpellsBuffer(str, [], 0);
    assert str[0..] == str;
  }

  // ---------- findDivisionByZeroRanges ----------

  /** How the pattern `\/(0+(?:\.0+)?)\b` matches at index `p`: the index just
      after the match, if any. The optional fraction is tried first; when the
      boundary after it fails, the match backs off to the zeros before the dot. */
  function DivZeroMatch(s: string, p: nat): (r: Option<nat>)
    requires p < |s|
    ensures r.Some? ==> p + 2 <= r.value <= |s|
  {
    if s[p] != '/' then None
    else
      var z := RunOf(s, p + 1, '0');
      if z == 0 then None
      else
        var e0 := p + 1 + z;
        var z2 := if e0 < |s| && s[e0] == '.' then RunOf(s, e0 + 1, '0') else 0;
        var e1 := e0 + 1 + z2;
        if z2 > 0 && (e1 == |s| || !IsWordChar(s[e1])) then Some(e1)
        else if e0 == |s| || !IsWordChar(s[e0]) then Some(e0)
        else None
  }

  /** Index `p` holds a `/` followed by zeros that do not run into a word
      character: the shape of a literal zero divisor. */
  predicate ZeroDivisorAt(s: string, p: int) {
    && 0 <= p < |s| - 1
    && s[p] == '/' && s[p + 1] == '0'
    && var e0 := p + 1 + RunOf(s, p + 1, '0');
       e0 == |s| || !IsWordChar(s[e0])
  }

  /** A range the finder may report: right after a `/`, zeros with at most one
      dot between them, starting and ending with a zero, before a non-word
      character or the end. */
  predicate ZeroLiteral(s: string, sp: Span) {
    && 1 <= sp.start < sp.end <= |s|
    && s[sp.start - 1] == '/'
    && s[sp.start] == '0' && s[sp.end - 1] == '0'
    && (forall k :: sp.start <= k < sp.end ==> s[k] == '0' || s[k] == '.')
    && (sp.end == |s| || !IsWordChar(s[sp.end]))
    && sp.reason == DivZero
  }

  lemma MatchShape(s: string, p: nat)
    requires p < |s|
    ensures DivZeroMatch(s, p).Some? <==> ZeroDivisorAt(s, p)
    ensures DivZeroMatch(s, p).Some? ==> ZeroLiteral(s, Span(p + 1, DivZeroMatch(s, p).value, DivZero))
    ensures DivZeroMatch(s, p).Some? ==>
              forall k :: p < k < DivZeroMatch(s, p).value ==> s[k] != '/'
  {
  }

  /** The zeros from index `a` run up to index `b`, and no further. */
  predicate ZerosUpTo(s: string, a: int, b: int) {
    && 0 <= a <= b <= |s|
    && (forall k :: a <= k < b ==> s[k] == '0')
    && (b == |s| || s[b] != '0')
  }

  /** Index `e` ends a word: `\b` holds there after a zero. */
  predicate WordEnd(s: string, e: int) {
    0 <= e <= |s| && (e == |s| || !IsWordChar(s[e]))
  }

  /** After zeros ending at `e0`, the optional group `(?:\.0+)` can be taken
      and still be followed by `\b`: a dot, at least one zero, then a word end. */
  ghost predicate FractionFits(s: string, e0: int) {
    && 0 <= e0 < |s| && s[e0] == '.'
    && forall e1 :: FractionZeros(s, e0, e1) ==> e0 + 1 < e1 && WordEnd(s, e1)
  }

  /** The zeros after the dot at `e0` run up to index `e1`. */
  predicate FractionZeros(s: string, e0: int, e1: int) {
    ZerosUpTo(s, e0 + 1, e1)
  }

  /** The end the pattern gives a match whose zeros start at `sp.start`: the
      fraction is included exactly when it fits, and otherwise the range
      ends with the zeros before the dot. */
  ghost predicate GreedyEnd(s: string, sp: Span) {
    forall e0 :: ZerosUpTo(s, sp.start, e0) ==>
      && (sp.end != e0 <==> FractionFits(s, e0))
      && (sp.end != e0 ==> ZerosUpTo(s, e0 + 1, sp.end))
  }

  /** A run of zeros has one end. */
  lemma ZerosUpToUnique(s: string, a: int, b: int)
    requires ZerosUpTo(s, a, b)
    ensures forall c :: ZerosUpTo(s, a, c) ==> c == b
  {
  }

  /** With the fraction's zeros running up to `e1`, the fraction fits
      exactly when there is at least one zero and a word end follows. */
  lemma FractionFitsAt(s: string, e0: int, e1: int)
    requires 0 <= e0 < |s| && s[e0] == '.' && ZerosUpTo(s, e0 + 1, e1)
    ensures FractionFits(s, e0) <==> e0 + 1 < e1 && WordEnd(s, e1)
  {
    assert FractionZeros(s, e0, e1);
    if e0 + 1 < e1 && WordEnd(s, e1) {
      forall c | FractionZeros(s, e0, c)
        ensures e0 + 1 < c && WordEnd(s, c)
      {
        ZerosEnd(s, e0 + 1, e1, c);
      }
    }
  }

  /** Two ends of the same run of zeros are the same index. */
  lemma ZerosEnd(s: string, a: int, b: int, c: int)
    requires ZerosUpTo(s, a, b) && ZerosUpTo(s, a, c)
    ensures b == c
  {
    if c < b {
      assert false;
    } else if b < c {
      assert false;
    }
  }

  /** The greedy end, checked at the one place the leading zeros stop. */
  lemma GreedyEndAt(s: string, sp: Span, e0: int)
    requires ZerosUpTo(s, sp.start, e0)
    requires sp.end != e0 <==> FractionFits(s, e0)
    requires sp.end != e0 ==> ZerosUpTo(s, e0 + 1, sp.end)
    ensures GreedyEnd(s, sp)
  {
    ZerosUpToUnique(s, sp.start, e0);
  }

  /** A match ends where the pattern's greedy, backtracking reading ends it. */
  lemma MatchIsGreedy(s: string, p: nat)
    requires p < |s| && DivZeroMatch(s, p).Some?
    ensures GreedyEnd(s, Span(p + 1, DivZeroMatch(s, p).value, DivZero))
  {
    var e := DivZeroMatch(s, p).value;
    var e0 := p + 1 + RunOf(s, p + 1, '0');
    assert ZerosUpTo(s, p + 1, e0);
    if e0 < |s| && s[e0] == '.' {
      var e1 := e0 + 1 + RunOf(s, e0 + 1, '0');
      assert ZerosUpTo(s, e0 + 1, e1);
      FractionFitsAt(s, e0, e1);
      if e0 + 1 < e1 && WordEnd(s, e1) {
        assert e == e1;
      } else {
        assert e == e0;
      }
    } else {
      assert !FractionFits(s, e0);
      assert e == e0;
    }
    GreedyEndAt(s, Span(p + 1, e, DivZero), e0);
  }

  /** The `exec` loop from index `p`. */
  function DivZeroFrom(s: string, p: nat): (r: seq<Span>)
    requires p <= |s|
    ensures forall k :: 0 <= k < |r| ==> ZeroLiteral(s, r[k]) && p < r[k].start
    ensures forall k :: 0 <= k < |r| ==> GreedyEnd(s, r[k])
    ensures forall k :: 0 <= k < |r| - 1 ==> r[k].end < r[k + 1].start
    decreases |s| - p
  {
    if p == |s| then []
    else
      match DivZeroMatch(s, p)
      case Some(e) =>
        MatchShape(s, p);
        MatchIsGreedy(s, p);
        [Span(p + 1, e, DivZero)] + DivZeroFrom(s, e)
      case None => DivZeroFrom(s, p + 1)
  }

  /** `findDivisionByZeroRanges(s)`. */
  function FindDivisionByZeroRanges(s: string): (r: seq<Span>)
    ensures forall k :: 0 <= k < |r| ==> ZeroLiteral(s, r[k]) && GreedyEnd(s, r[k])
    ensures forall k :: 0 <= k < |r| - 1 ==> r[k].end < r[k + 1].start
  {
    DivZeroFrom(s, 0)
  }

  predicate StartsRange(r: seq<Span>, x: int) {
    exists k :: 0 <= k < |r| && r[k].start == x
  }

  lemma StartsRangeCons(h: Span, t: seq<Span>, x: int)
    ensures StartsRange([h] + t, x) <==> h.start == x || StartsRange(t, x)
  {
    var r := [h] + t;
    if StartsRange(t, x) {
      var k :| 0 <= k < |t| && t[k].start == x;
      assert r[k + 1] == t[k];
    }
    if StartsRange(r, x) && h.start != x {
      var k :| 0 <= k < |r| && r[k].start == x;
      assert t[k - 1] == r[k];
    }
    assert r[0] == h;
  }

  /** The finder reports a range right after index `q` exactly when `q` holds
      the `/` of a literal zero divisor. */
  lemma {:induction false} DivZeroFromComplete(s: string, p: nat, q: int)
    requires p <= |s|
    ensures StartsRange(DivZeroFrom(s, p), q + 1) <==> p <= q && ZeroDivisorAt(s, q)
    decreases |s| - p
  {
    if p < |s| {
      MatchShape(s, p);
      if DivZeroMatch(s, p).Some? {
        DivZeroFromComplete(s, DivZeroMatch(s, p).value, q);
        CompleteAtMatch(s, p, q);
      } else {
        DivZeroFromComplete(s, p + 1, q);
        CompleteElsewhere(s, p, q);
      }
    }
  }

  /** The step of `DivZeroFromComplete` where a match starts at `p`. */
  lemma CompleteAtMatch(s: string, p: nat, q: int)
    requires p < |s| && DivZeroMatch(s, p).Some?
    requires var e := DivZeroMatch(s, p).value;
      e <= |s| && (StartsRange(DivZeroFrom(s, e), q + 1) <==> e <= q && ZeroDivisorAt(s, q))
    ensures StartsRange(DivZeroFrom(s, p), q + 1) <==> p <= q && ZeroDivisorAt(s, q)
  {
    MatchShape(s, p);
    var e := DivZeroMatch(s, p).value;
    assert DivZeroFrom(s, p) == [Span(p + 1, e, DivZero)] + DivZeroFrom(s, e);
    StartsRangeCons(Span(p + 1, e, DivZero), DivZeroFrom(s, e), q + 1);
    if p < q < e {
      assert s[q] != '/';
    }
  }

  /** The step of `DivZeroFromComplete` where no match starts at `p`. */
  lemma CompleteElsewhere(s: string, p: nat, q: int)
    requires p < |s| && DivZeroMatch(s, p).None?
    requires StartsRange(DivZeroFrom(s, p + 1), q + 1) <==> p + 1 <= q && ZeroDivisorAt(s, q)
    ensures StartsRange(DivZeroFrom(s, p), q + 1) <==> p <= q && ZeroDivisorAt(s, q)
  {
    MatchShape(s, p);
    assert DivZeroFrom(s, p) == DivZeroFrom(s, p + 1);
  }

  lemma FindDivisionByZeroRangesComplete(s: string, q: int)
    ensures StartsRange(FindDivisionByZeroRanges(s), q + 1) <==> ZeroDivisorAt(s, q)
  {
    DivZeroFromComplete(s, 0, q);
  }

  /** The list of ranges is non-empty exactly when some `/` has a zero
      divisor. */
  lemma HasZeroDivisor(s: string)
    ensures |FindDivisionByZeroRanges(s)| > 0 <==> exists q :: ZeroDivisorAt(s, q)
  {
    var dz := FindDivisionByZeroRanges(s);
    if |dz| > 0 {
      var q := dz[0].start - 1;
      assert StartsRange(dz, q + 1) by { assert dz[0].start == q + 1; }
      FindDivisionByZeroRangesComplete(s, q);
    }
    forall q | ZeroDivisorAt(s, q)
      ensures |dz| > 0
    {
      FindDivisionByZeroRangesComplete(s, q);
    }
  }

  /** When the fraction is all zeros it is taken: in `5/0.0` the range is
      `0.0`, not just the `0` before the dot. */
  lemma TakesZeroFraction()
    ensures FindDivisionByZeroRanges("5/0.0") == [Span(2, 5, DivZero)]
  {
    var s := "5/0.0";
    assert DivZeroMatch(s, 0) == None;
    assert RunOf(s, 2, '0') == 1;
    assert RunOf(s, 4, '0') == 1;
    assert DivZeroMatch(s, 1) == Some(5);
    assert DivZeroFrom(s, 1) == [Span(2, 5, DivZero)] + DivZeroFrom(s, 5);
  }

  /** The backing-off case: in `5/00.005` the fraction runs into a digit, so
      only the `00` before the dot is reported. */
  lemma BacksOffBeforeDot()
    ensures FindDivisionByZeroRanges("5/00.005") == [Span(2, 4, DivZero)]
  {
    var s := "5/00.005";
    assert DivZeroMatch(s, 0) == None;
    assert RunOf(s, 2, '0') == 2;
    assert RunOf(s, 5, '0') == 2;
    assert DivZeroMatch(s, 1) == Some(4);
    assert DivZeroFrom(s, 1) == [Span(2, 4, DivZero)] + DivZeroFrom(s, 4);
    assert DivZeroMatch(s, 4) == None;
    assert DivZeroMatch(s, 5) == None;
    assert DivZeroMatch(s, 6) == None;
    assert DivZeroMatch(s, 7) == None;
  }
}
