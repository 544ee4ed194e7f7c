/** Python's notion of whitespace and the normalisation applied to the
    "Week #" column: `str.strip()` followed by `re.sub(r'\s+', ' ', ...)`. */
module Whitespace {

  /** The characters for which Python's `str.isspace()` holds; `str.strip()`
      and the regular-expression class `\s` use this set. `int()` skips all
      of them but the four information separators U+001C..U+001F. */
  predicate IsSpace(c: char) {
    || c == ' '
    || '\t' <= c <= '\r'
    || '\U{1C}' <= c <= '\U{1F}'
    || c == '\U{85}'
    || c == '\U{A0}'
    || c == '\U{1680}'
    || '\U{2000}' <= c <= '\U{200A}'
    || c == '\U{2028}'
    || c == '\U{2029}'
    || c == '\U{202F}'
    || c == '\U{205F}'
    || c == '\U{3000}'
  }

  /** The non-whitespace characters of `s`, in order. */
  function Visible(s: string): string {
    if |s| == 0 then ""
    else (if IsSpace(s[0]) then "" else [s[0]]) + Visible(s[1..])
  }

  lemma {:induction false} VisibleAppend(a: string, b: string)
    ensures Visible(a + b) == Visible(a) + Visible(b)
    decreases |a|
  {
    if |a| > 0 {
      assert (a + b)[1..] == a[1..] + b;
      VisibleAppend(a[1..], b);
    } else {
      assert a + b == b;
    }
  }

  /** The number of whitespace characters `s` starts with. */
  function LeadingSpaces(s: string): (k: nat)
    ensures k <= |s|
  {
    if |s| > 0 && IsSpace(s[0]) then 1 + LeadingSpaces(s[1..]) else 0
  }

  /** The number of whitespace characters `s` ends with. */
  function TrailingSpaces(s: string): (k: nat)
    ensures k <= |s|
  {
    if |s| > 0 && IsSpace(s[|s| - 1]) then 1 + TrailingSpaces(s[..|s| - 1]) else 0
  }

  /** The leading run is all whitespace and is maximal. */
  lemma {:induction false} LeadingSpacesSpec(s: string)
    ensures forall i :: 0 <= i < LeadingSpaces(s) ==> IsSpace(s[i])
    ensures LeadingSpaces(s) == |s| || !IsSpace(s[LeadingSpaces(s)])
    decreases |s|
  {
    if |s| > 0 && IsSpace(s[0]) {
      LeadingSpacesSpec(s[1..]);
      forall i | 0 < i < LeadingSpaces(s) ensures IsSpace(s[i]) {
        assert s[i] == s[1..][i - 1];
      }
    }
  }

  /** The trailing run is all whitespace and is maximal. */
  lemma {:induction false} TrailingSpacesSpec(s: string)
    ensures forall i :: |s| - TrailingSpaces(s) <= i < |s| ==> IsSpace(s[i])
    ensures TrailingSpaces(s) == |s| || !IsSpace(s[|s| - TrailingSpaces(s) - 1])
    decreases |s|
  {
    if |s| > 0 && IsSpace(s[|s| - 1]) {
      var p := s[..|s| - 1];
      TrailingSpacesSpec(p);
      forall i | |s| - TrailingSpaces(s) <= i < |s| - 1 ensures IsSpace(s[i]) {
        assert s[i] == p[i];
      }
    }
  }

  /** `str.lstrip()`. */
  function TrimStart(s: string): string {
    s[LeadingSpaces(s)..]
  }

  /** `str.rstrip()`. */
  function TrimEnd(s: string): string {
    s[..|s| - TrailingSpaces(s)]
  }

  /** `str.strip()`. */
  function Strip(s: string): string {
    TrimEnd(TrimStart(s))
  }

  /** `str.strip()` removes exactly the whitespace at both ends: what it
      keeps is the stretch of `s` between the leading and the trailing
      whitespace runs, and it neither starts nor ends with whitespace. */
  lemma StripSpec(s: string)
    ensures var r := Strip(s);
      && |r| <= |s| - LeadingSpaces(s)
      && r == s[LeadingSpaces(s)..LeadingSpaces(s) + |r|]
      && (|r| == 0 || (!IsSpace(r[0]) && !IsSpace(r[|r| - 1])))
      && (forall i :: LeadingSpaces(s) + |r| <= i < |s| ==> IsSpace(s[i]))
  {
    var t := TrimStart(s);
    var k := LeadingSpaces(s);
    LeadingSpacesSpec(s);
    TrailingSpacesSpec(t);
    var r := Strip(s);
    if |r| > 0 {
      assert r[0] == t[0] == s[k];
      if TrailingSpaces(t) < |t| {
        assert r[|r| - 1] == t[|t| - TrailingSpaces(t) - 1];
      }
    }
    forall i | k + |r| <= i < |s| ensures IsSpace(s[i]) {
      assert s[i] == t[i - k];
    }
  }

  /** Whitespace in front adds to the leading run. */
  lemma {:induction false} LeadingSpacesPrefix(w: string, rest: string)
    requires forall i :: 0 <= i < |w| ==> IsSpace(w[i])
    ensures LeadingSpaces(w + rest) == |w| + LeadingSpaces(rest)
    decreases |w|
  {
    if |w| == 0 {
      assert w + rest == rest;
    } else {
      assert (w + rest)[1..] == w[1..] + rest;
      LeadingSpacesPrefix(w[1..], rest);
    }
  }

  /** Whitespace behind adds to the trailing run. */
  lemma {:induction false} TrailingSpacesSuffix(rest: string, w: string)
    requires forall i :: 0 <= i < |w| ==> IsSpace(w[i])
    ensures TrailingSpaces(rest + w) == TrailingSpaces(rest) + |w|
    decreases |w|
  {
    if |w| == 0 {
      assert rest + w == rest;
    } else {
      var p := w[..|w| - 1];
      assert (rest + w)[..|rest + w| - 1] == rest + p;
      TrailingSpacesSuffix(rest, p);
    }
  }

  /** Whitespace behind a text that does not end with whitespace is exactly
      what `rstrip` removes. */
  lemma TrimEndSpaces(b: string, w: string)
    requires forall i :: 0 <= i < |w| ==> IsSpace(w[i])
    requires |b| == 0 || !IsSpace(b[|b| - 1])
    ensures TrimEnd(b + w) == b
  {
    TrailingSpacesSuffix(b, w);
    assert TrailingSpaces(b) == 0;
    assert (b + w)[..|b|] == b;
  }

  /** `str.strip()` of a text padded with whitespace on both sides is the
      text itself, when the text neither starts nor ends with whitespace. */
  lemma StripPadded(w1: string, m: string, w2: string)
    requires forall i :: 0 <= i < |w1| ==> IsSpace(w1[i])
    requires forall i :: 0 <= i < |w2| ==> IsSpace(w2[i])
    requires |m| == 0 || (!IsSpace(m[0]) && !IsSpace(m[|m| - 1]))
    ensures Strip(w1 + m + w2) == m
  {
    if |m| == 0 {
      var w := w1 + w2;
      assert w1 + m + w2 == w + "";
      assert forall i :: 0 <= i < |w| ==> IsSpace(w[i]);
      TrimStartSpaces(w, "");
      assert TrimEnd("") == "";
    } else {
      assert w1 + m + w2 == w1 + (m + w2);
      TrimStartSpaces(w1, m + w2);
      TrimEndSpaces(m, w2);
    }
  }

  /** A text that neither starts nor ends with whitespace is its own strip. */
  lemma StripPlain(s: string)
    requires |s| == 0 || (!IsSpace(s[0]) && !IsSpace(s[|s| - 1]))
    ensures Strip(s) == s
  {
  }

  /** Cutting a text at two points and joining the three pieces gives it
      back. A lemma of its own so that `StripSplits` reasons about plain
      indices, not about the definition of `Strip`. */
  lemma Cut3(s: string, i: nat, j: nat)
    requires i <= j <= |s|
    ensures s == s[..i] + s[i..j] + s[j..]
  {
  }

  /** Any text is its strip with whitespace runs around it. */
  lemma StripSplits(s: string)
    ensures var k := LeadingSpaces(s);
      && k + |Strip(s)| <= |s|
      && s == s[..k] + Strip(s) + s[k + |Strip(s)|..]
      && (forall i :: 0 <= i < k ==> IsSpace(s[i]))
      && (forall i :: k + |Strip(s)| <= i < |s| ==> IsSpace(s[i]))
  {
    StripSpec(s);
    LeadingSpacesSpec(s);
    Cut3(s, LeadingSpaces(s), LeadingSpaces(s) + |Strip(s)|);
  }

  /** Once `y` holds a non-whitespace character, whatever precedes `y` is
      untouched by `rstrip`. */
  lemma {:induction false} TrimEndKeeps(x: string, y: string)
    requires TrailingSpaces(y) < |y|
    ensures TrimEnd(x + y) == x + TrimEnd(y)
    decreases |y|
  {
    if IsSpace(y[|y| - 1]) {
      var p := y[..|y| - 1];
      assert (x + y)[..|x + y| - 1] == x + p;
      TrimEndKeeps(x, p);
    } else {
      assert (x + y)[|x + y| - 1] == y[|y| - 1];
    }
  }

  /** A visible character bounds both whitespace runs. */
  lemma VisibleBounds(s: string, i: nat)
    requires i < |s| && !IsSpace(s[i])
    ensures LeadingSpaces(s) <= i && TrailingSpaces(s) < |s| - i
  {
    LeadingSpacesSpec(s);
    TrailingSpacesSpec(s);
  }

  /** `lstrip` first changes nothing `strip` would keep. */
  lemma StripTrimStart(s: string)
    ensures Strip(TrimStart(s)) == Strip(s)
  {
    LeadingSpacesSpec(s);
    var t := TrimStart(s);
    if |t| > 0 {
      assert t[0] == s[LeadingSpaces(s)];
    }
    assert LeadingSpaces(t) == 0;
    assert TrimStart(t) == t;
  }

  /** `rstrip` first changes nothing `strip` would keep. */
  lemma StripTrimEnd(s: string)
    ensures Strip(TrimEnd(s)) == Strip(s)
  {
    StripSplits(s);
    var k := LeadingSpaces(s);
    var r := Strip(s);
    if |r| == 0 {
      StripBlank(s);
      StripBlank(TrimEnd(s));
    } else {
      StripSpec(s);
      StripTrimEndVisible(s[..k], r, s[k + |r|..]);
    }
  }

  /** A text with no visible character strips to nothing. */
  lemma StripBlank(s: string)
    requires forall i :: 0 <= i < |s| ==> IsSpace(s[i])
    ensures Strip(s) == ""
  {
    assert s == s + "";
    TrimStartSpaces(s, "");
  }

  /** `StripTrimEnd` for a text with a visible character, cut around its
      strip. */
  lemma StripTrimEndVisible(p: string, r: string, q: string)
    requires forall i :: 0 <= i < |p| ==> IsSpace(p[i])
    requires forall i :: 0 <= i < |q| ==> IsSpace(q[i])
    requires |r| > 0 && !IsSpace(r[0]) && !IsSpace(r[|r| - 1])
    ensures Strip(TrimEnd(p + r + q)) == r
  {
    assert (p + r)[|p + r| - 1] == r[|r| - 1];
    TrimEndSpaces(p + r, q);
    assert p + r == p + r + "";
    StripPadded(p, r, "");
  }

  /** Stripping `x + [c] + y` around a visible `c` strips only the outer
      ends, whether or not `x` and `y` hold anything visible. */
  lemma StripDashed(x: string, y: string, c: char)
    requires !IsSpace(c)
    ensures Strip(x + [c] + y) == TrimStart(x) + [c] + TrimEnd(y)
  {
    assert x + [c] + y == x + ([c] + y);
    TrimStartBefore(x, [c] + y);
    assert TrimStart(x) + ([c] + y) == (TrimStart(x) + [c]) + y;
    TrimEndAfter(TrimStart(x) + [c], y);
  }

  /** In front of a text starting with a visible character, `lstrip` acts on
      the front alone. */
  lemma TrimStartBefore(x: string, z: string)
    requires |z| > 0 && !IsSpace(z[0])
    ensures TrimStart(x + z) == TrimStart(x) + z
  {
    if LeadingSpaces(x) < |x| {
      TrimStartKeeps(x, z);
    } else {
      LeadingSpacesSpec(x);
      TrimStartSpaces(x, z);
      assert TrimStart(x) == "";
    }
  }

  /** Behind a text ending with a visible character, `rstrip` acts on the
      back alone. */
  lemma TrimEndAfter(z: string, y: string)
    requires |z| > 0 && !IsSpace(z[|z| - 1])
    ensures TrimEnd(z + y) == z + TrimEnd(y)
  {
    if TrailingSpaces(y) < |y| {
      TrimEndKeeps(z, y);
    } else {
      TrailingSpacesSpec(y);
      TrimEndSpaces(z, y);
      assert TrimEnd(y) == "";
    }
  }

  /** Stripping twice is stripping once. */
  lemma StripIdempotent(s: string)
    ensures Strip(Strip(s)) == Strip(s)
  {
    StripSpec(s);
    StripPlain(Strip(s));
  }

  lemma {:induction false} TrimStartVisible(s: string)
    ensures Visible(TrimStart(s)) == Visible(s)
    decreases |s|
  {
    if |s| > 0 && IsSpace(s[0]) {
      TrimStartVisible(s[1..]);
      assert TrimStart(s) == TrimStart(s[1..]);
    }
  }

  lemma {:induction false} TrimEndVisible(s: string)
    ensures Visible(TrimEnd(s)) == Visible(s)
    decreases |s|
  {
    if |s| > 0 && IsSpace(s[|s| - 1]) {
      var p := s[..|s| - 1];
      TrimEndVisible(p);
      assert TrailingSpaces(s) == 1 + TrailingSpaces(p);
      assert TrimEnd(s) == p[..|p| - TrailingSpaces(p)];
      assert s == p + [s[|s| - 1]];
      VisibleAppend(p, [s[|s| - 1]]);
      assert [s[|s| - 1]][1..] == [];
      assert Visible([s[|s| - 1]]) == "";
    } else {
      assert TrimEnd(s) == s;
    }
  }

  /** Stripping keeps every non-whitespace character, in order. */
  lemma StripVisible(s: string)
    ensures Visible(Strip(s)) == Visible(s)
  {
    TrimStartVisible(s);
    TrimEndVisible(TrimStart(s));
  }

  /** Every whitespace character is a plain space and no two are adjacent. */
  ghost predicate SingleSpaced(s: string) {
    && (forall i :: 0 <= i < |s| && IsSpace(s[i]) ==> s[i] == ' ')
    && (forall i :: 0 <= i < |s| - 1 ==> !IsSpace(s[i]) || !IsSpace(s[i + 1]))
  }

  /** The shape of a normalised field: single-spaced, nothing at the ends. */
  ghost predicate IsNormal(s: string) {
    && SingleSpaced(s)
    && (|s| == 0 || (!IsSpace(s[0]) && !IsSpace(s[|s| - 1])))
  }

  /** `re.sub(r'\s+', ' ', s)`: each maximal whitespace run becomes one space. */
  function Collapse(s: string): string
    decreases |s|
  {
    if |s| == 0 then ""
    else if IsSpace(s[0]) then " " + Collapse(TrimStart(s[1..]))
    else [s[0]] + Collapse(s[1..])
  }

  /** `Collapse` empties only the empty text, and starts (ends) with
      whitespace exactly when its input does. */
  lemma {:induction false} CollapseEnds(s: string)
    ensures var r := Collapse(s);
      && (|r| == 0 <==> |s| == 0)
      && (|s| > 0 ==> (IsSpace(r[0]) <==> IsSpace(s[0])))
      && (|s| > 0 ==> (IsSpace(r[|r| - 1]) <==> IsSpace(s[|s| - 1])))
    decreases |s|
  {
    if |s| > 0 && IsSpace(s[0]) {
      var u := s[1..];
      var t := TrimStart(u);
      CollapseEnds(t);
      assert |t| > 0 ==> t[|t| - 1] == s[|s| - 1];
      assert |t| == 0 ==> IsSpace(s[|s| - 1]) by {
        if |t| == 0 && |u| > 0 {
          LeadingSpacesSpec(u);
          assert IsSpace(u[|u| - 1]);
        }
      }
      CollapseSpaceHead(s);
      EndsOfHead(s, t, ' ', Collapse(s), Collapse(t));
    } else if |s| > 0 {
      var t := s[1..];
      CollapseEnds(t);
      CollapseVisibleHead(s);
      EndsOfHead(s, t, s[0], Collapse(s), Collapse(t));
    }
  }

  /** The ends of `r == [h] + c`: the first character is `h`, the last is
      that of `c`, or `h` when `c` is empty. `CollapseEnds` passes `r` and
      `c` already collapsed, so that this step never unfolds `Collapse`. */
  lemma EndsOfHead(s: string, t: string, h: char, r: string, c: string)
    requires |s| > 0 && r == [h] + c
    requires IsSpace(h) <==> IsSpace(s[0])
    requires |c| == 0 <==> |t| == 0
    requires |t| > 0 ==> (IsSpace(c[|c| - 1]) <==> IsSpace(t[|t| - 1])) && t[|t| - 1] == s[|s| - 1]
    requires |t| == 0 ==> (IsSpace(s[|s| - 1]) <==> IsSpace(h))
    ensures |r| > 0 && (IsSpace(r[0]) <==> IsSpace(s[0]))
    ensures IsSpace(r[|r| - 1]) <==> IsSpace(s[|s| - 1])
  {
    if |c| > 0 {
      assert r[|r| - 1] == c[|c| - 1];
    }
  }

  /** `Collapse` leaves no whitespace but single plain spaces. */
  lemma {:induction false} CollapseSingleSpaced(s: string)
    ensures SingleSpaced(Collapse(s))
    decreases |s|
  {
    if |s| > 0 {
      var t := if IsSpace(s[0]) then TrimStart(s[1..]) else s[1..];
      CollapseSingleSpaced(t);
      CollapseEnds(t);
      LeadingSpacesSpec(s[1..]);
      var r := Collapse(s);
      var c := Collapse(t);
      assert r == [r[0]] + c;
      forall i | 0 <= i < |r| && IsSpace(r[i]) ensures r[i] == ' ' {
        if i > 0 { assert r[i] == c[i - 1]; }
      }
      forall i | 0 <= i < |r| - 1 ensures !IsSpace(r[i]) || !IsSpace(r[i + 1]) {
        if i > 0 {
          assert r[i] == c[i - 1] && r[i + 1] == c[i];
        } else if IsSpace(s[0]) {
          assert r[1] == c[0];
        }
      }
    }
  }

  /** `Collapse` keeps every non-whitespace character, in order. */
  lemma {:induction false} CollapseVisible(s: string)
    ensures Visible(Collapse(s)) == Visible(s)
    decreases |s|
  {
    if |s| > 0 {
      var t := if IsSpace(s[0]) then TrimStart(s[1..]) else s[1..];
      CollapseVisible(t);
      TrimStartVisible(s[1..]);
      var r := Collapse(s);
      assert r == [r[0]] + Collapse(t);
      VisibleAppend([r[0]], Collapse(t));
      VisibleAppend([s[0]], s[1..]);
      assert s == [s[0]] + s[1..];
    }
  }

  /** A text that is empty or starts with whitespace loses nothing but its
      leading whitespace when the text in front of it is all whitespace. */
  lemma {:induction false} TrimStartSpaces(w: string, b: string)
    requires forall i :: 0 <= i < |w| ==> IsSpace(w[i])
    requires |b| == 0 || !IsSpace(b[0])
    ensures TrimStart(w + b) == b
  {
    LeadingSpacesPrefix(w, b);
    assert (w + b)[|w|..] == b;
  }

  /** Once `x` holds a non-whitespace character, whatever follows `x` is
      untouched by `lstrip`. */
  lemma {:induction false} TrimStartKeeps(x: string, y: string)
    requires LeadingSpaces(x) < |x|
    ensures TrimStart(x + y) == TrimStart(x) + y
    decreases |x|
  {
    if IsSpace(x[0]) {
      assert (x + y)[1..] == x[1..] + y;
      TrimStartKeeps(x[1..], y);
    }
  }

  /** `Collapse` on a text that starts with whitespace. */
  lemma CollapseSpaceHead(s: string)
    requires |s| > 0 && IsSpace(s[0])
    ensures Collapse(s) == " " + Collapse(TrimStart(s[1..]))
  {
  }

  /** `Collapse` on a text that starts with a visible character. */
  lemma CollapseVisibleHead(s: string)
    requires |s| > 0 && !IsSpace(s[0])
    ensures Collapse(s) == [s[0]] + Collapse(s[1..])
  {
  }

  /** The run case with nothing in front: the run collapses to one space. */
  lemma CollapseLeadingRun(w: string, b: string)
    requires |w| > 0 && forall i :: 0 <= i < |w| ==> IsSpace(w[i])
    requires |b| == 0 || !IsSpace(b[0])
    ensures Collapse(w + b) == " " + Collapse(b)
  {
    var s := w + b;
    assert TrimStart(s[1..]) == b by {
      assert s[1..] == w[1..] + b;
      TrimStartSpaces(w[1..], b);
    }
    assert s[0] == w[0];
    CollapseSpaceHead(s);
  }

  /** `Collapse` on a whitespace character, a text with a visible
      character, and anything after it. */
  lemma CollapseSpaceThen(c: char, t: string, v: string)
    requires IsSpace(c) && LeadingSpaces(t) < |t|
    ensures Collapse([c] + t + v) == " " + Collapse(TrimStart(t) + v)
  {
    var s := [c] + t + v;
    assert s[0] == c && s[1..] == t + v;
    TrimStartKeeps(t, v);
    CollapseSpaceHead(s);
  }

  /** `CollapseSpaceThen` with the text after `t` split in two. */
  lemma CollapseSpaceRest(c: char, t: string, w: string, b: string)
    requires IsSpace(c) && LeadingSpaces(t) < |t|
    ensures Collapse([c] + t + w + b) == " " + Collapse(TrimStart(t) + w + b)
  {
    assert [c] + t + w + b == [c] + t + (w + b);
    CollapseSpaceThen(c, t, w + b);
    assert TrimStart(t) + (w + b) == TrimStart(t) + w + b;
  }

  /** `CollapseSpaceThen` with nothing after `t`. */
  lemma CollapseSpaceAlone(c: char, t: string)
    requires IsSpace(c) && LeadingSpaces(t) < |t|
    ensures Collapse([c] + t) == " " + Collapse(TrimStart(t))
  {
    assert [c] + t == [c] + t + "";
    CollapseSpaceThen(c, t, "");
    assert TrimStart(t) + "" == TrimStart(t);
  }

  /** `h + (p + " " + q) == (h + p) + " " + q`, with both sides given
      names, so that the callers' `Collapse` terms are not unfolded. */
  lemma Regroup(h: string, p: string, q: string, whole: string, head: string)
    requires whole == h + (p + " " + q) && head == h + p
    ensures whole == head + " " + q
  {
  }

  /** The step of `CollapseRun` past a leading whitespace character. */
  lemma CollapseRunSpaceStep(c: char, t: string, w: string, b: string)
    requires IsSpace(c) && LeadingSpaces(t) < |t|
    requires Collapse(TrimStart(t) + w + b) == Collapse(TrimStart(t)) + " " + Collapse(b)
    ensures Collapse([c] + t + w + b) == Collapse([c] + t) + " " + Collapse(b)
  {
    CollapseSpaceRest(c, t, w, b);
    CollapseSpaceAlone(c, t);
    Regroup(" ", Collapse(TrimStart(t)), Collapse(b), Collapse([c] + t + w + b), Collapse([c] + t));
  }

  /** `Collapse` past a leading visible character of `a`, with text after
      `a`. */
  lemma CollapseVisibleRest(a: string, w: string, b: string)
    requires |a| > 0 && !IsSpace(a[0])
    ensures Collapse(a + w + b) == [a[0]] + Collapse(a[1..] + w + b)
  {
    var s := a + w + b;
    assert s[0] == a[0];
    assert s[1..] == a[1..] + w + b;
    CollapseVisibleHead(s);
  }

  /** The step of `CollapseRun` past a leading visible character of `a`. */
  lemma CollapseRunVisibleStep(a: string, w: string, b: string)
    requires |a| > 0 && !IsSpace(a[0])
    requires Collapse(a[1..] + w + b) == Collapse(a[1..]) + " " + Collapse(b)
    ensures Collapse(a + w + b) == Collapse(a) + " " + Collapse(b)
  {
    CollapseVisibleRest(a, w, b);
    CollapseVisibleHead(a);
    Regroup([a[0]], Collapse(a[1..]), Collapse(b), Collapse(a + w + b), Collapse(a));
  }

  /** A whitespace run between two non-whitespace characters becomes one
      space: `re.sub(r'\s+', ' ', a + w + b)` is the substitution on `a`,
      a single space, and the substitution on `b`. */
  lemma {:induction false} CollapseRun(a: string, w: string, b: string)
    requires |a| == 0 || !IsSpace(a[|a| - 1])
    requires |w| > 0 && forall i :: 0 <= i < |w| ==> IsSpace(w[i])
    requires |b| == 0 || !IsSpace(b[0])
    ensures Collapse(a + w + b) == Collapse(a) + " " + Collapse(b)
    decreases |a|
  {
    if |a| == 0 {
      assert a + w + b == w + b;
      CollapseLeadingRun(w, b);
    } else if IsSpace(a[0]) {
      var t := a[1..];
      assert LeadingSpaces(t) < |t| by {
        LeadingSpacesSpec(t);
      }
      var u := TrimStart(t);
      assert u[|u| - 1] == a[|a| - 1];
      CollapseRun(u, w, b);
      CollapseRunSpaceStep(a[0], t, w, b);
      assert a == [a[0]] + t;
    } else {
      var t := a[1..];
      if |t| > 0 { assert t[|t| - 1] == a[|a| - 1]; }
      CollapseRun(t, w, b);
      CollapseRunVisibleStep(a, w, b);
    }
  }

  /** The normalisation of the "Week #" column. */
  function Normalize(s: string): string {
    Collapse(Strip(s))
  }

  /** The normalised text is single-spaced with no whitespace at either
      end, and keeps every non-whitespace character in order. */
  lemma NormalizeShape(s: string)
    ensures IsNormal(Normalize(s))
    ensures Visible(Normalize(s)) == Visible(s)
  {
    CollapseSingleSpaced(Strip(s));
    CollapseVisible(Strip(s));
    StripVisible(s);
    StripSpec(s);
    CollapseEnds(Strip(s));
  }

  /** A single-spaced text is left alone by `Collapse`. */
  lemma {:induction false} CollapseFixed(s: string)
    requires SingleSpaced(s)
    ensures Collapse(s) == s
    decreases |s|
  {
    if |s| > 0 {
      assert SingleSpaced(s[1..]) by {
        forall i | 0 <= i < |s[1..]| - 1
          ensures !IsSpace(s[1..][i]) || !IsSpace(s[1..][i + 1])
        {
          assert s[1..][i] == s[i + 1] && s[1..][i + 1] == s[i + 2];
        }
      }
      CollapseFixed(s[1..]);
      if IsSpace(s[0]) {
        assert |s| == 1 || !IsSpace(s[1]);
        assert TrimStart(s[1..]) == s[1..];
      }
    }
  }

  /** A normal text is a fixed point of the normalisation. */
  lemma NormalFixed(s: string)
    requires IsNormal(s)
    ensures Normalize(s) == s
  {
    StripPlain(s);
    CollapseFixed(s);
  }

  /** Normalising twice is normalising once. */
  lemma NormalizeIdempotent(s: string)
    ensures Normalize(Normalize(s)) == Normalize(s)
  {
    NormalizeShape(s);
    NormalFixed(Normalize(s));
  }
}
