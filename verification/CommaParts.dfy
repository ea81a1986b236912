/**
 parseCommaParts of brace expansion: splitting a brace body at its top-level commas.
 */
module CommaParts {
  import opened Balanced

  // ---------- Cutting a string at marked characters ----------

  /** The parts of s between the characters marked in `at`. */
  function Cut(s: string, at: seq<bool>): (parts: seq<string>)
    requires |at| == |s|
    ensures |parts| > 0
  {
    if s == [] then
      [""]
    else
      var rest := Cut(s[1..], at[1..]);
      if at[0] then [""] + rest else [[s[0]] + rest[0]] + rest[1..]
  }

  /** The parts of a concatenation: the part on either side of the joint becomes one. */
  function Glue(a: seq<string>, b: seq<string>): (parts: seq<string>)
    requires a != [] && b != []
    ensures |parts| > 0
  {
    a[..|a| - 1] + [a[|a| - 1] + b[0]] + b[1..]
  }

  lemma {:induction false} CutGlue(s: string, t: string, ms: seq<bool>, mt: seq<bool>)
    requires |ms| == |s| && |mt| == |t|
    ensures Cut(s + t, ms + mt) == Glue(Cut(s, ms), Cut(t, mt))
  {
    if s == [] {
      assert s + t == t && ms + mt == mt;
      assert "" + Cut(t, mt)[0] == Cut(t, mt)[0];
    } else {
      assert (s + t)[1..] == s[1..] + t && (ms + mt)[1..] == ms[1..] + mt;
      CutGlue(s[1..], t, ms[1..], mt);
      var rest, right := Cut(s[1..], ms[1..]), Cut(t, mt);
      if ms[0] {
        assert Glue([""] + rest, right) == [""] + Glue(rest, right);
      } else {
        GluePrefix([s[0]], rest, right);
      }
    }
  }

  lemma GluePrefix(c: string, a: seq<string>, b: seq<string>)
    requires a != [] && b != []
    ensures Glue([c + a[0]] + a[1..], b) == [c + Glue(a, b)[0]] + Glue(a, b)[1..]
  {
    if |a| == 1 {
      assert (c + a[0]) + b[0] == c + (a[0] + b[0]);
    }
  }

  function Unmarked(n: nat): (m: seq<bool>)
    ensures |m| == n && forall i :: 0 <= i < n ==> !m[i]
  {
    seq(n, i => false)
  }

  lemma {:induction false} CutNowhere(s: string, m: seq<bool>)
    requires |m| == |s| && forall i :: 0 <= i < |m| ==> !m[i]
    ensures Cut(s, m) == [s]
  {
    if s != [] {
      CutNowhere(s[1..], m[1..]);
      assert [s[0]] + s[1..] == s;
    }
  }

  /** Array.prototype.join(","). */
  function Join(parts: seq<string>): string {
    if parts == [] then "" else if |parts| == 1 then parts[0] else parts[0] + "," + Join(parts[1..])
  }

  lemma JoinFirst(first: string, parts: seq<string>)
    ensures Join([first] + parts) == if parts == [] then first else first + "," + Join(parts)
  {
  }

  lemma JoinLonger(c: string, parts: seq<string>)
    requires parts != []
    ensures Join([c + parts[0]] + parts[1..]) == c + Join(parts)
  {
  }

  lemma {:induction false} JoinCut(s: string, m: seq<bool>)
    requires |m| == |s| && forall i :: 0 <= i < |s| && m[i] ==> s[i] == ','
    ensures Join(Cut(s, m)) == s
  {
    hide Join;
    if s == [] {
      JoinNothing();
    } else {
      var rest := Cut(s[1..], m[1..]);
      JoinCut(s[1..], m[1..]);
      assert s == [s[0]] + s[1..];
      if m[0] {
        JoinFirst("", rest);
        assert "" + "," + s[1..] == s;
      } else {
        JoinLonger([s[0]], rest);
      }
    }
  }

  lemma JoinNothing()
    ensures Join([""]) == ""
  {
  }

  // ---------- Top-level commas ----------

  function Commas(s: string): (m: seq<bool>)
    ensures |m| == |s|
  {
    seq(|s|, i requires 0 <= i < |s| => s[i] == ',')
  }

  /** Some matched pair of braces lies around position i. */
  ghost predicate Enclosed(s: string, i: nat) {
    exists l: nat, r: nat :: Matched(s, '{', '}', l, r) && l < i < r
  }

  /** The commas that no matched pair of braces encloses. */
  ghost function TopCommas(s: string): (m: seq<bool>)
    ensures |m| == |s|
  {
    seq(|s|, i requires 0 <= i < |s| => s[i] == ',' && !Enclosed(s, i))
  }

  /** The string between its top-level commas. */
  ghost function TopParts(s: string): (parts: seq<string>)
    ensures |parts| > 0
  {
    Cut(s, TopCommas(s))
  }

  /** String.prototype.split(","). */
  function Split(s: string): (parts: seq<string>)
    ensures |parts| > 0
  {
    Cut(s, Commas(s))
  }

  lemma {:induction false} LevelShift(s: string, a: char, b: char, from: nat, k: nat)
    requires from + k <= |s|
    ensures Level(s, a, b, from + k) == Level(s, a, b, from) + Level(s[from..], a, b, k)
  {
    if k > 0 {
      LevelShift(s, a, b, from, k - 1);
      assert s[from + k - 1] == s[from..][k - 1];
    }
  }

  lemma MatchedShift(s: string, from: nat, l: nat, r: nat)
    requires from <= |s|
    ensures Matched(s[from..], '{', '}', l, r) <==> Matched(s, '{', '}', from + l, from + r)
  {
    hide Level;
    if l < r < |s| - from {
      forall k | l < k <= r
        ensures Level(s, '{', '}', from + k) == Level(s, '{', '}', from) + Level(s[from..], '{', '}', k)
      {
        LevelShift(s, '{', '}', from, k);
      }
      LevelShift(s, '{', '}', from, l + 1);
      if Matched(s[from..], '{', '}', l, r) {
        forall k | from + l < k <= from + r
          ensures Level(s, '{', '}', k) >= Level(s, '{', '}', from + l + 1)
        {
          var j := k - from;
          assert Level(s[from..], '{', '}', j) >= Level(s[from..], '{', '}', l + 1);
          assert Level(s, '{', '}', from + j) == Level(s, '{', '}', from) + Level(s[from..], '{', '}', j);
        }
      }
      if Matched(s, '{', '}', from + l, from + r) {
        forall k | l < k <= r
          ensures Level(s[from..], '{', '}', k) >= Level(s[from..], '{', '}', l + 1)
        {
          assert Level(s, '{', '}', from + k) >= Level(s, '{', '}', from + l + 1);
        }
      }
    }
  }

  /** After the leftmost pair, enclosure is decided within the rest of the string. */
  lemma EnclosedAfter(s: string, l: nat, r: nat, i: nat)
    requires LeftmostMatch(s, '{', '}', l, r) && r < i < |s|
    ensures Enclosed(s, i) <==> Enclosed(s[r + 1..], i - (r + 1))
  {
    hide Level;
    var from := r + 1;
    if Enclosed(s, i) {
      var l': nat, r': nat :| Matched(s, '{', '}', l', r') && l' < i < r';
      assert l <= l';
      if l' == l {
        CloserIsUnique(s, '{', '}', l, r, r');
      } else if l' < r {
        PairsNest(s, '{', '}', l, r, l', r');
      }
      assert l' != r;
      MatchedShift(s, from, l' - from, r' - from);
    }
    if Enclosed(s[from..], i - from) {
      var l': nat, r': nat :| Matched(s[from..], '{', '}', l', r') && l' < i - from < r';
      MatchedShift(s, from, l', r');
    }
  }

  /** The commas to cut at, on the three sides of the leftmost pair of braces. */
  lemma TopCommasAround(s: string, l: nat, r: nat)
    requires LeftmostMatch(s, '{', '}', l, r)
    ensures TopCommas(s) == (Commas(s[..l]) + Unmarked(r + 1 - l)) + TopCommas(s[r + 1..])
  {
    hide Level;
    var three := (Commas(s[..l]) + Unmarked(r + 1 - l)) + TopCommas(s[r + 1..]);
    forall i | 0 <= i < |s|
      ensures TopCommas(s)[i] == three[i]
    {
      hide Matched, Enclosed;
      if i < l {
        NothingEnclosesBefore(s, l, r, i);
      } else if i <= r {
        EnclosedWithin(s, l, r, i);
      } else {
        EnclosedAfter(s, l, r, i);
      }
    }
  }

  lemma NothingEnclosesBefore(s: string, l: nat, r: nat, i: nat)
    requires LeftmostMatch(s, '{', '}', l, r) && i < l
    ensures !Enclosed(s, i)
  {
  }

  lemma EnclosedWithin(s: string, l: nat, r: nat, i: nat)
    requires LeftmostMatch(s, '{', '}', l, r) && l <= i <= r < |s|
    ensures s[i] == ',' ==> Enclosed(s, i)
  {
  }

  lemma NoPairNoEnclosure(s: string)
    requires NoPair(s, '{', '}')
    ensures TopCommas(s) == Commas(s)
  {
  }

  // ---------- Where the parts lie ----------

  /** Where part k ends: the lengths of the parts up to it and of the separators between them. */
  function EndOf(parts: seq<string>, k: nat): nat
    requires k < |parts|
  {
    |parts[0]| + if k == 0 then 0 else 1 + EndOf(parts[1..], k - 1)
  }

  predicate IsStretch(part: string, s: string, end: nat) {
    |part| <= end <= |s| && s[end - |part|..end] == part
  }

  /** A part other than the last ends at position i. */
  ghost predicate EndsAt(parts: seq<string>, i: nat) {
    exists k :: 0 <= k < |parts| - 1 && EndOf(parts, k) == i
  }

  lemma EndAfterCut(rest: seq<string>, k: nat)
    requires k < |rest|
    ensures EndOf([""] + rest, k + 1) == EndOf(rest, k) + 1
  {
    assert ([""] + rest)[1..] == rest;
  }

  lemma EndOfLonger(c: char, rest: seq<string>, k: nat)
    requires k < |rest|
    ensures EndOf([[c] + rest[0]] + rest[1..], k) == EndOf(rest, k) + 1
  {
    assert ([[c] + rest[0]] + rest[1..])[1..] == rest[1..];
  }

  lemma {:induction false} EndsAscend(parts: seq<string>, j: nat, k: nat)
    requires j < k < |parts|
    ensures EndOf(parts, j) < EndOf(parts, k)
  {
    if j > 0 {
      EndsAscend(parts[1..], j - 1, k - 1);
    }
  }

  lemma StretchShifts(part: string, s: string, end: nat)
    requires s != "" && IsStretch(part, s[1..], end)
    ensures IsStretch(part, s, end + 1)
  {
    assert s[1..][end - |part|..end] == s[end + 1 - |part|..end + 1];
  }

  lemma {:induction false} CutLastEnd(s: string, m: seq<bool>)
    requires |m| == |s|
    ensures EndOf(Cut(s, m), |Cut(s, m)| - 1) == |s|
  {
    if s != "" {
      var rest := Cut(s[1..], m[1..]);
      CutLastEnd(s[1..], m[1..]);
      if m[0] {
        EndAfterCut(rest, |rest| - 1);
      } else {
        EndOfLonger(s[0], rest, |rest| - 1);
      }
    }
  }

  lemma {:induction false} CutStretches(s: string, m: seq<bool>, k: nat)
    requires |m| == |s| && k < |Cut(s, m)|
    ensures IsStretch(Cut(s, m)[k], s, EndOf(Cut(s, m), k))
  {
    if s != "" {
      hide EndOf;
      var rest := Cut(s[1..], m[1..]);
      var j := if m[0] && k > 0 then k - 1 else k;
      if m[0] && k == 0 {
        FirstEnd([""] + rest);
      } else {
        CutStretches(s[1..], m[1..], j);
        StretchShifts(rest[j], s, EndOf(rest, j));
        if m[0] {
          EndAfterCut(rest, j);
        } else {
          EndOfLonger(s[0], rest, j);
          FirstEnd(rest);
        }
      }
    }
  }

  lemma FirstEnd(parts: seq<string>)
    requires parts != []
    ensures EndOf(parts, 0) == |parts[0]|
  {
  }

  lemma {:induction false} CutEndsAt(s: string, m: seq<bool>, i: nat)
    requires |m| == |s| && i < |s|
    ensures EndsAt(Cut(s, m), i) <==> m[i]
  {
    hide EndOf;
    var rest := Cut(s[1..], m[1..]);
    if i > 0 {
      CutEndsAt(s[1..], m[1..], i - 1);
    }
    if m[0] {
      FirstEnd([""] + rest);
      EndsAtAfterCut(rest, i);
    } else {
      EndsAtLonger(s[0], rest, i);
    }
  }

  lemma EndsAtAfterCut(rest: seq<string>, i: nat)
    requires rest != []
    ensures EndsAt([""] + rest, i) <==> i == 0 || EndsAt(rest, i - 1)
  {
    hide EndOf;
    var parts := [""] + rest;
    FirstEnd(parts);
    if EndsAt(parts, i) && i > 0 {
      var k :| 0 <= k < |parts| - 1 && EndOf(parts, k) == i;
      EndAfterCut(rest, k - 1);
    }
    if i > 0 && EndsAt(rest, i - 1) {
      var k :| 0 <= k < |rest| - 1 && EndOf(rest, k) == i - 1;
      EndAfterCut(rest, k);
      assert EndOf(parts, k + 1) == i;
    }
  }

  lemma EndsAtLonger(c: char, rest: seq<string>, i: nat)
    requires rest != []
    ensures EndsAt([[c] + rest[0]] + rest[1..], i) <==> i > 0 && EndsAt(rest, i - 1)
  {
    hide EndOf;
    var parts := [[c] + rest[0]] + rest[1..];
    if EndsAt(parts, i) {
      var k :| 0 <= k < |parts| - 1 && EndOf(parts, k) == i;
      EndOfLonger(c, rest, k);
    }
    if i > 0 && EndsAt(rest, i - 1) {
      var k :| 0 <= k < |rest| - 1 && EndOf(rest, k) == i - 1;
      EndOfLonger(c, rest, k);
      assert EndOf(parts, k) == i;
    }
  }

  /** The ends of the first n parts. */
  function Ends(parts: seq<string>, n: nat): (ends: set<nat>)
    requires n <= |parts|
  {
    if n == 0 then {} else Ends(parts, n - 1) + {EndOf(parts, n - 1)}
  }

  /** One of the first n parts ends at position i. */
  ghost predicate EndsBefore(parts: seq<string>, n: nat, i: nat)
    requires n <= |parts|
  {
    exists k :: 0 <= k < n && EndOf(parts, k) == i
  }

  lemma {:induction false} InEnds(parts: seq<string>, n: nat, i: nat)
    requires n <= |parts|
    ensures i in Ends(parts, n) <==> EndsBefore(parts, n, i)
  {
    hide EndOf;
    if n > 0 {
      InEnds(parts, n - 1, i);
      assert EndOf(parts, n - 1) == i ==> EndsBefore(parts, n, i);
    }
  }

  lemma {:induction false} CountEnds(parts: seq<string>, n: nat)
    requires n <= |parts|
    ensures |Ends(parts, n)| == n
  {
    hide EndOf;
    if n > 0 {
      var last := EndOf(parts, n - 1);
      CountEnds(parts, n - 1);
      InEnds(parts, n - 1, last);
      if last in Ends(parts, n - 1) {
        var k :| 0 <= k < n - 1 && EndOf(parts, k) == last;
        EndsAscend(parts, k, n - 1);
      }
    }
  }

  /** A comma of s that no matched pair of braces encloses. */
  ghost predicate IsTopComma(s: string, i: nat) {
    i < |s| && s[i] == ',' && !Enclosed(s, i)
  }

  ghost function TopCommaSet(s: string): set<nat> {
    set i: nat | i < |s| && IsTopComma(s, i)
  }

  /** The parts and the separators after them make up s, and the separators are exactly the commas
      that no matched pair of braces encloses. */
  ghost predicate SplitsAtTopCommas(parts: seq<string>, s: string) {
    && parts != [] && EndOf(parts, |parts| - 1) == |s|
    && (forall k :: 0 <= k < |parts| ==> IsStretch(parts[k], s, EndOf(parts, k)))
    && (forall i: nat :: IsTopComma(s, i) <==> EndsAt(parts, i))
  }

  lemma EndsInside(parts: seq<string>, i: nat)
    requires parts != [] && EndsAt(parts, i)
    ensures i < EndOf(parts, |parts| - 1)
  {
    var k :| 0 <= k < |parts| - 1 && EndOf(parts, k) == i;
    EndsAscend(parts, k, |parts| - 1);
  }

  lemma TopPartsSplit(s: string)
    ensures SplitsAtTopCommas(TopParts(s), s)
  {
    hide Enclosed, Cut, EndOf;
    var m := TopCommas(s);
    CutLastEnd(s, m);
    forall k | 0 <= k < |TopParts(s)|
      ensures IsStretch(TopParts(s)[k], s, EndOf(TopParts(s), k))
    {
      CutStretches(s, m, k);
    }
    forall i: nat
      ensures IsTopComma(s, i) <==> EndsAt(TopParts(s), i)
    {
      if EndsAt(TopParts(s), i) {
        EndsInside(TopParts(s), i);
      }
      if i < |s| {
        CutEndsAt(s, m, i);
      }
    }
  }

  /** There is one part more than there are commas to split at. */
  lemma PartsAreCounted(parts: seq<string>, s: string)
    requires SplitsAtTopCommas(parts, s)
    ensures |parts| == 1 + |TopCommaSet(s)|
  {
    hide Enclosed, EndOf;
    CountEnds(parts, |parts| - 1);
    forall i: nat
      ensures i in TopCommaSet(s) <==> i in Ends(parts, |parts| - 1)
    {
      InEnds(parts, |parts| - 1, i);
      assert IsTopComma(s, i) <==> EndsAt(parts, i);
      assert EndsAt(parts, i) <==> EndsBefore(parts, |parts| - 1, i);
    }
    assert TopCommaSet(s) == Ends(parts, |parts| - 1);
  }

  // ---------- The splitter ----------

  method ParseCommaParts(str: string) returns (parts: seq<string>)
    ensures parts == TopParts(str)
    ensures Join(parts) == str
    ensures SplitsAtTopCommas(parts, str)
    ensures |parts| == 1 + |TopCommaSet(str)|
    decreases |str|
  {
    hide Level, Cut, Join, SplitsAtTopCommas, IsTopComma;
    JoinTopParts(str);
    TopPartsSplit(str);
    PartsAreCounted(TopParts(str), str);
    if str == "" {
      CutNowhere(str, TopCommas(str));
      return [""];
    }
    var m := Range('{', '}', str);
    if m.None? {
      NoPairNoEnclosure(str);
      return Split(str);
    }
    var (l, r) := m.value;
    var pre, body, post := str[..l], str[l + 1..r], str[r + 1..];
    var p := Split(pre);
    p := p[|p| - 1 := p[|p| - 1] + "{" + body + "}"];
    PreAndBody(str, l, r);
    var postParts := ParseCommaParts(post);
    if |post| > 0 {
      p := p[|p| - 1 := p[|p| - 1] + postParts[0]];
      p := p + postParts[1..];
    }
    TopPartsAround(str, l, r);
    parts := p;
  }

  lemma JoinTopParts(s: string)
    ensures Join(TopParts(s)) == s
  {
    JoinCut(s, TopCommas(s));
  }

  /** The parts up to the end of the leftmost pair. */
  lemma PreAndBody(s: string, l: nat, r: nat)
    requires LeftmostMatch(s, '{', '}', l, r)
    ensures var p := Split(s[..l]);
            p[|p| - 1 := p[|p| - 1] + "{" + s[l + 1..r] + "}"]
            == Cut(s[..l] + s[l..r + 1], Commas(s[..l]) + Unmarked(r + 1 - l))
  {
    hide Level, Cut;
    var p, group := Split(s[..l]), s[l..r + 1];
    CutGlue(s[..l], group, Commas(s[..l]), Unmarked(r + 1 - l));
    CutNowhere(group, Unmarked(r + 1 - l));
    assert group == "{" + s[l + 1..r] + "}";
    assert p[|p| - 1] + group == p[|p| - 1] + "{" + s[l + 1..r] + "}";
  }

  lemma TopPartsAround(s: string, l: nat, r: nat)
    requires LeftmostMatch(s, '{', '}', l, r)
    ensures TopParts(s) == Glue(Cut(s[..l] + s[l..r + 1], Commas(s[..l]) + Unmarked(r + 1 - l)), TopParts(s[r + 1..]))
    ensures s[r + 1..] == "" ==> TopParts(s) == Cut(s[..l] + s[l..r + 1], Commas(s[..l]) + Unmarked(r + 1 - l))
  {
    hide Level, Cut;
    TopCommasAround(s, l, r);
    assert s == (s[..l] + s[l..r + 1]) + s[r + 1..];
    CutGlue(s[..l] + s[l..r + 1], s[r + 1..], Commas(s[..l]) + Unmarked(r + 1 - l), TopCommas(s[r + 1..]));
    if s[r + 1..] == "" {
      CutNowhere(s[r + 1..], TopCommas(s[r + 1..]));
      var p := Cut(s[..l] + s[l..r + 1], Commas(s[..l]) + Unmarked(r + 1 - l));
      assert p[|p| - 1] + "" == p[|p| - 1];
    }
  }
}
