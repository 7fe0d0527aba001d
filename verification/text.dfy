/** Character and string operations the news job relies on: Python's
    whitespace class, `str.strip`, the `re.sub(r"\s+", " ", s)` collapse,
    ASCII lowercasing, substring search, decimal rendering of positions and
    `str.join`. */
module Text {

  /** Python's `str.isspace`, which is also the `\s` class of `re` on str
      patterns. */
  predicate IsSpace(c: char) {
    || ('\t' <= c <= '\r')
    || ('\U{1C}' <= c <= ' ')
    || c == '\U{85}' || c == '\U{A0}' || c == '\U{1680}'
    || ('\U{2000}' <= c <= '\U{200A}')
    || c == '\U{2028}' || c == '\U{2029}' || c == '\U{202F}'
    || c == '\U{205F}' || c == '\U{3000}'
  }

  predicate IsDigit(c: char) { '0' <= c <= '9' }

  predicate AllSpace(s: string) {
    forall i :: 0 <= i < |s| ==> IsSpace(s[i])
  }

  /** Neither the first nor the last character is whitespace. */
  predicate NoEdgeSpace(s: string) {
    |s| == 0 || (!IsSpace(s[0]) && !IsSpace(s[|s| - 1]))
  }

  predicate NoDoubleSpace(s: string) {
    forall i :: 0 <= i < |s| - 1 ==> !(IsSpace(s[i]) && IsSpace(s[i + 1]))
  }

  /** The only whitespace character that occurs is the plain space. */
  predicate OnlyPlainSpace(s: string) {
    forall i :: 0 <= i < |s| ==> IsSpace(s[i]) ==> s[i] == ' '
  }

  /** The shape of every value `Clean` produces. */
  predicate IsCleaned(s: string) {
    NoEdgeSpace(s) && NoDoubleSpace(s) && OnlyPlainSpace(s)
  }

  /** The non-whitespace characters of `s`, in order. */
  function NonSpace(s: string): string
  {
    if |s| == 0 then ""
    else (if IsSpace(s[0]) then "" else [s[0]]) + NonSpace(s[1..])
  }

  lemma {:induction false} NonSpaceAppend(a: string, b: string)
    ensures NonSpace(a + b) == NonSpace(a) + NonSpace(b)
    decreases |a|
  {
    if |a| > 0 {
      assert (a + b)[1..] == a[1..] + b;
      NonSpaceAppend(a[1..], b);
    } else {
      assert a + b == b;
    }
  }

  lemma {:induction false} NonSpaceOfSpace(s: string)
    requires AllSpace(s)
    ensures NonSpace(s) == ""
    decreases |s|
  {
    if |s| > 0 {
      NonSpaceOfSpace(s[1..]);
    }
  }

  /** The number of whitespace characters `s` starts with. */
  function Lead(s: string): (n: nat)
    ensures n <= |s|
    ensures forall i :: 0 <= i < n ==> IsSpace(s[i])
    ensures n < |s| ==> !IsSpace(s[n])
    decreases |s|
  {
    if |s| > 0 && IsSpace(s[0]) then 1 + Lead(s[1..]) else 0
  }

  /** The number of whitespace characters `s` ends with. */
  function Trail(s: string): (n: nat)
    ensures n <= |s|
    ensures forall i :: |s| - n <= i < |s| ==> IsSpace(s[i])
    ensures n < |s| ==> !IsSpace(s[|s| - n - 1])
    decreases |s|
  {
    if |s| > 0 && IsSpace(s[|s| - 1]) then 1 + Trail(s[..|s| - 1]) else 0
  }

  /** Python's `s.lstrip()`. */
  function StripLeft(s: string): (r: string)
    ensures |r| <= |s|
    ensures r == [] || !IsSpace(r[0])
    ensures AllSpace(s[..|s| - |r|])
    ensures |s| > 0 && IsSpace(s[0]) ==> |r| < |s|
  {
    s[Lead(s)..]
  }

  /** Python's `s.strip()`: the infix left after removing leading and
      trailing whitespace. */
  function Strip(s: string): (r: string)
    ensures |r| <= |s|
    ensures NoEdgeSpace(r)
    ensures r == [] <==> AllSpace(s)
    ensures r != [] ==> r == s[Lead(s)..|s| - Trail(s)]
    ensures NoEdgeSpace(s) ==> r == s
  {
    var i := Lead(s);
    if i == |s| then ""
    else
      assert !IsSpace(s[i]);
      s[i..|s| - Trail(s)]
  }

  lemma LeadUnique(t: string, n: nat)
    requires n <= |t| && forall i :: 0 <= i < n ==> IsSpace(t[i])
    requires n < |t| ==> !IsSpace(t[n])
    ensures Lead(t) == n
  {
  }

  lemma TrailUnique(t: string, n: nat)
    requires n <= |t| && forall i :: |t| - n <= i < |t| ==> IsSpace(t[i])
    requires n < |t| ==> !IsSpace(t[|t| - n - 1])
    ensures Trail(t) == n
  {
  }

  /** Whitespace around a value with no edge whitespace is exactly what
      `Strip` removes. */
  lemma StripPadded(a: string, s: string, b: string)
    requires AllSpace(a) && AllSpace(b) && NoEdgeSpace(s)
    ensures Strip(a + s + b) == s
  {
    var t := a + s + b;
    if |s| == 0 {
      assert AllSpace(t);
    } else {
      LeadUnique(t, |a|);
      TrailUnique(t, |b|);
      assert t[|a|..|t| - |b|] == s;
    }
  }

  lemma NonSpaceStrip(s: string)
    ensures NonSpace(Strip(s)) == NonSpace(s)
  {
    var r := Strip(s);
    if r == [] {
      NonSpaceOfSpace(s);
    } else {
      var i, j := Lead(s), |s| - Trail(s);
      assert s == s[..i] + r + s[j..];
      assert AllSpace(s[..i]) && AllSpace(s[j..]);
      NonSpaceAround(s[..i], r, s[j..]);
    }
  }

  /** Whitespace around a text adds no visible character. */
  lemma NonSpaceAround(a: string, r: string, b: string)
    requires AllSpace(a) && AllSpace(b)
    ensures NonSpace(a + r + b) == NonSpace(r)
  {
    NonSpaceAppend(a + r, b);
    NonSpaceAppend(a, r);
    NonSpaceOfSpace(a);
    NonSpaceOfSpace(b);
  }

  /** `re.sub(r"\s+", " ", s)`: every maximal run of whitespace becomes one
      plain space. */
  function Collapse(s: string): (r: string)
    ensures |r| <= |s|
    ensures NoDoubleSpace(r) && OnlyPlainSpace(r)
    ensures |s| > 0 ==> |r| > 0 && (IsSpace(r[0]) <==> IsSpace(s[0]))
    ensures |s| > 0 && !IsSpace(s[0]) ==> r[0] == s[0]
    decreases |s|
  {
    if |s| == 0 then ""
    else if IsSpace(s[0]) then " " + Collapse(StripLeft(s))
    else [s[0]] + Collapse(s[1..])
  }

  lemma {:induction false} NonSpaceCollapse(s: string)
    ensures NonSpace(Collapse(s)) == NonSpace(s)
    decreases |s|
  {
    if |s| > 0 {
      if IsSpace(s[0]) {
        var l := StripLeft(s);
        NonSpaceCollapse(l);
        NonSpaceAppend(" ", Collapse(l));
        assert s == s[..|s| - |l|] + l;
        NonSpaceAppend(s[..|s| - |l|], l);
        NonSpaceOfSpace(s[..|s| - |l|]);
        NonSpaceOfSpace(" ");
      } else {
        NonSpaceCollapse(s[1..]);
        NonSpaceAppend([s[0]], Collapse(s[1..]));
        assert NonSpace([s[0]]) == [s[0]];
      }
    }
  }

  /** Text that already has single plain spaces is left alone by `Collapse`. */
  lemma {:induction false} CollapseFixpoint(s: string)
    requires NoDoubleSpace(s) && OnlyPlainSpace(s)
    ensures Collapse(s) == s
    decreases |s|
  {
    if |s| > 0 {
      assert NoDoubleSpace(s[1..]) && OnlyPlainSpace(s[1..]);
      CollapseFixpoint(s[1..]);
      if IsSpace(s[0]) {
        assert StripLeft(s) == s[1..];
        assert s == " " + s[1..];
      } else {
        assert s == [s[0]] + s[1..];
      }
    }
  }

  /** A whitespace run between two pieces of text becomes exactly one plain
      space, whatever the pieces collapse to on their own. */
  lemma {:induction false} CollapseAround(a: string, w: string, b: string)
    requires |w| > 0 && AllSpace(w)
    requires |a| == 0 || !IsSpace(a[|a| - 1])
    requires |b| == 0 || !IsSpace(b[0])
    ensures Collapse(a + (w + b)) == Collapse(a) + " " + Collapse(b)
    decreases |a|
  {
    if |a| == 0 {
      assert a + (w + b) == w + b;
      CollapseRunFirst(w, b);
    } else {
      CollapseAround(Rest(a), w, b);
      CollapseAroundStep(a, w + b, Collapse(b));
    }
  }

  /** What `Collapse` recurs on after its first step. */
  function Rest(a: string): (r: string)
    requires |a| > 0 && !IsSpace(a[|a| - 1])
    ensures |r| < |a|
    ensures |r| == 0 || !IsSpace(r[|r| - 1])
  {
    if IsSpace(a[0]) then StripLeftAppend(a, ""); StripLeft(a) else a[1..]
  }

  lemma CollapseAroundStep(a: string, x: string, cb: string)
    requires |a| > 0 && !IsSpace(a[|a| - 1])
    requires Collapse(Rest(a) + x) == Collapse(Rest(a)) + " " + cb
    ensures Collapse(a + x) == Collapse(a) + " " + cb
  {
    var a' := Rest(a);
    var h := if IsSpace(a[0]) then " " else [a[0]];
    if IsSpace(a[0]) {
      StripLeftAppend(a, x);
      CollapseAroundSpace(a, x, a');
    } else {
      CollapseAroundChar(a, x);
    }
    calc {
      Collapse(a + x);
      h + Collapse(a' + x);
      h + (Collapse(a') + " " + cb);
      { Regroup(h, Collapse(a'), cb); }
      (h + Collapse(a')) + " " + cb;
      Collapse(a) + " " + cb;
    }
  }

  lemma Regroup(h: string, x: string, y: string)
    ensures h + (x + " " + y) == (h + x) + " " + y
  {
  }

  /** The step of `CollapseAround` for text starting with whitespace. */
  lemma CollapseAroundSpace(a: string, x: string, l: string)
    requires |a| > 0 && IsSpace(a[0])
    requires l == StripLeft(a) && StripLeft(a + x) == l + x
    ensures Collapse(a + x) == " " + Collapse(l + x)
    ensures Collapse(a) == " " + Collapse(l)
  {
    CollapseSpaceStep(a + x);
    CollapseSpaceStep(a);
  }

  /** The step of `CollapseAround` for text starting with a visible
      character. */
  lemma CollapseAroundChar(a: string, x: string)
    requires |a| > 0 && !IsSpace(a[0])
    ensures Collapse(a + x) == [a[0]] + Collapse(a[1..] + x)
    ensures Collapse(a) == [a[0]] + Collapse(a[1..])
  {
    assert (a + x)[1..] == a[1..] + x;
    CollapseCharStep(a + x);
    CollapseCharStep(a);
  }

  lemma CollapseSpaceStep(s: string)
    requires |s| > 0 && IsSpace(s[0])
    ensures Collapse(s) == " " + Collapse(StripLeft(s))
  {
  }

  lemma CollapseCharStep(s: string)
    requires |s| > 0 && !IsSpace(s[0])
    ensures Collapse(s) == [s[0]] + Collapse(s[1..])
  {
  }

  lemma CollapseRunFirst(w: string, b: string)
    requires |w| > 0 && AllSpace(w)
    requires |b| == 0 || !IsSpace(b[0])
    ensures Collapse(w + b) == " " + Collapse(b)
  {
    LeadUnique(w + b, |w|);
    assert StripLeft(w + b) == b;
  }

  /** Leading whitespace is all in `a` when `a` has a visible character. */
  lemma StripLeftAppend(a: string, x: string)
    requires |a| > 0 && !IsSpace(a[|a| - 1])
    ensures StripLeft(a + x) == StripLeft(a) + x
    ensures |StripLeft(a)| > 0 && StripLeft(a)[|StripLeft(a)| - 1] == a[|a| - 1]
  {
    var l := Lead(a);
    assert l < |a|;
    LeadUnique(a + x, l);
    assert (a + x)[l..] == a[l..] + x;
  }

  /** Collapsing keeps a visible last character visible. */
  lemma {:induction false} CollapseLastVisible(s: string)
    requires |s| > 0 && !IsSpace(s[|s| - 1])
    ensures |Collapse(s)| > 0 && !IsSpace(Collapse(s)[|Collapse(s)| - 1])
    decreases |s|
  {
    if IsSpace(s[0]) {
      var l := StripLeft(s);
      assert l[|l| - 1] == s[|s| - 1];
      CollapseLastVisible(l);
    } else if |s| > 1 {
      CollapseLastVisible(s[1..]);
    }
  }

  /** `_clean` of news_fetch.py: collapse whitespace runs, then strip. */
  function Clean(s: string): (r: string)
    ensures IsCleaned(r)
    ensures |r| <= |s|
    ensures NonSpace(r) == NonSpace(s)
    ensures r == s <==> IsCleaned(s)
  {
    var c := Collapse(s);
    var r := Strip(c);
    CleanParts(s, c, r);
    r
  }

  lemma CleanParts(s: string, c: string, r: string)
    requires c == Collapse(s) && r == Strip(c)
    ensures IsCleaned(r)
    ensures NonSpace(r) == NonSpace(s)
    ensures r == s <==> IsCleaned(s)
  {
    StripKeepsShape(c);
    NonSpaceStrip(c);
    NonSpaceCollapse(s);
    if IsCleaned(s) {
      CollapseFixpoint(s);
    }
  }

  /** Stripping keeps single plain spaces single and plain. */
  lemma StripKeepsShape(c: string)
    requires NoDoubleSpace(c) && OnlyPlainSpace(c)
    ensures IsCleaned(Strip(c))
  {
    var r := Strip(c);
    if r != [] {
      var i := Lead(c);
      assert forall k :: 0 <= k < |r| ==> r[k] == c[i + k];
    }
  }

  /** Between two visible characters, a whitespace run of any length and
      kind cleans to exactly one plain space: `_clean("a\t\n b")` is
      `"a b"`, never `"ab"`. */
  lemma CleanAround(a: string, w: string, b: string)
    requires |w| > 0 && AllSpace(w)
    requires |a| > 0 && !IsSpace(a[|a| - 1])
    requires |b| > 0 && !IsSpace(b[0])
    ensures Clean(a + w + b) == Clean(a) + " " + Clean(b)
  {
    CollapseAround(a, w, b);
    assert a + w + b == a + (w + b);
    CollapseLastVisible(a);
    StripAroundSpace(Collapse(a), Collapse(b));
  }

  /** Stripping text that has a visible character on each side of a single
      space strips its two ends only. */
  lemma StripAroundSpace(x: string, y: string)
    requires |x| > 0 && !IsSpace(x[|x| - 1])
    requires |y| > 0 && !IsSpace(y[0])
    ensures Strip(x + " " + y) == Strip(x) + " " + Strip(y)
  {
    var sx, sy := Strip(x), Strip(y);
    TrailUnique(x, 0);
    LeadUnique(y, 0);
    var lx, ty := x[..Lead(x)], y[|y| - Trail(y)..];
    assert x == lx + sx;
    assert y == sy + ty;
    var m := sx + " " + sy;
    assert m[0] == sx[0] && m[|m| - 1] == sy[|sy| - 1];
    assert x + " " + y == lx + m + ty;
    StripPadded(lx, m, ty);
  }

  /** Stripping text that starts with a visible character leaves its front
      alone. */
  lemma StripFront(a: string, x: string)
    requires |a| > 0 && !IsSpace(a[0])
    requires |x| > 0 && !IsSpace(x[0])
    ensures Strip(a + x) == a + Strip(x)
  {
    var t := a + x;
    var n := Trail(x);
    assert n < |x|;
    LeadUnique(t, 0);
    LeadUnique(x, 0);
    TrailUnique(t, n);
    assert t[..|t| - n] == a + x[..|x| - n];
  }

  /** A trailing line break is stripped with the rest of the trailing
      whitespace. */
  lemma StripBreak(x: string)
    requires |x| > 0 && !IsSpace(x[0])
    ensures Strip(x + "\n") == Strip(x)
  {
    var r := Strip(x);
    var b := x[|x| - Trail(x)..];
    LeadUnique(x, 0);
    assert x == r + b;
    assert IsSpace('\n');
    assert x + "\n" == "" + r + (b + "\n");
    StripPadded("", r, b + "\n");
  }

  /** Cleaning twice is cleaning once. */
  lemma CleanIdempotent(s: string)
    ensures Clean(Clean(s)) == Clean(s)
  {
  }

  /** The difference between `Clean` and `Strip` is only the inner
      whitespace: both keep the same visible characters. */
  lemma CleanKeepsVisibleText(s: string)
    ensures NonSpace(Clean(s)) == NonSpace(Strip(s))
  {
    NonSpaceStrip(s);
  }

  /** Python's `a or b` on two strings: `a` unless it is empty. */
  function OrElse(a: string, b: string): (r: string)
    ensures r == a || r == b
    ensures r == "" <==> a == "" && b == ""
  {
    if a != "" then a else b
  }

  function LowerChar(c: char): char {
    if 'A' <= c <= 'Z' then (c as int + 32) as char else c
  }

  /** `str.lower()` restricted to the ASCII letters. */
  function Lower(s: string): (r: string)
    ensures |r| == |s|
    ensures forall i :: 0 <= i < |s| ==> r[i] == LowerChar(s[i])
  {
    seq(|s|, i requires 0 <= i < |s| => LowerChar(s[i]))
  }

  predicate SameUpToCase(a: string, b: string) {
    |a| == |b| && forall i :: 0 <= i < |a| ==> LowerChar(a[i]) == LowerChar(b[i])
  }

  lemma LowerOfSameCase(a: string, b: string)
    requires SameUpToCase(a, b)
    ensures Lower(a) == Lower(b)
  {
  }

  predicate StartsWith(s: string, p: string) {
    |p| <= |s| && s[..|p|] == p
  }

  /** Python's `p in s` on strings: `p` occurs in `s` at some offset. */
  predicate Contains(s: string, p: string)
    decreases |s|
  {
    StartsWith(s, p) || (|s| > 0 && Contains(s[1..], p))
  }

  /** The reference meaning of substring containment. */
  ghost predicate OccursAt(s: string, p: string, i: int) {
    0 <= i && i + |p| <= |s| && s[i..i + |p|] == p
  }

  lemma {:induction false} ContainsMeansOccurs(s: string, p: string)
    ensures Contains(s, p) <==> exists i :: OccursAt(s, p, i)
    decreases |s|
  {
    if |s| > 0 {
      ContainsMeansOccurs(s[1..], p);
    }
    if Contains(s, p) {
      if StartsWith(s, p) {
        assert OccursAt(s, p, 0);
      } else {
        var i :| OccursAt(s[1..], p, i);
        assert s[1..][i..i + |p|] == s[i + 1..i + 1 + |p|];
        assert OccursAt(s, p, i + 1);
      }
    }
    if exists i :: OccursAt(s, p, i) {
      var i :| OccursAt(s, p, i);
      if i > 0 {
        assert s[1..][i - 1..i - 1 + |p|] == s[i..i + |p|];
        assert OccursAt(s[1..], p, i - 1);
      }
    }
  }

  /** A pattern with a character the text lacks does not occur in it. */
  lemma MissingCharNotContained(s: string, p: string, k: int)
    requires 0 <= k < |p| && p[k] !in s
    ensures !Contains(s, p)
  {
    ContainsMeansOccurs(s, p);
    forall i | 0 <= i && i + |p| <= |s|
      ensures !OccursAt(s, p, i)
    {
      assert s[i..i + |p|][k] == s[i + k];
      assert s[i + k] in s;
    }
  }

  function DigitChar(d: nat): (c: char)
    requires d < 10
    ensures IsDigit(c)
  {
    ((d + '0' as int) as char)
  }

  function DigitValue(c: char): nat
    requires IsDigit(c)
  {
    c as int - '0' as int
  }

  predicate AllDigits(s: string) {
    forall i :: 0 <= i < |s| ==> IsDigit(s[i])
  }

  /** The value of a decimal numeral. */
  function ParseNat(s: string): nat
    requires AllDigits(s)
  {
    if |s| == 0 then 0 else ParseNat(s[..|s| - 1]) * 10 + DigitValue(s[|s| - 1])
  }

  /** Python's `f"{n}"` for a natural number: its decimal numeral. */
  function NatToString(n: nat): (r: string)
    ensures |r| > 0 && AllDigits(r)
    decreases n
  {
    if n < 10 then [DigitChar(n)] else NatToString(n / 10) + [DigitChar(n % 10)]
  }

  /** The numeral reads back as the number it was written from. */
  lemma {:induction false} NatToStringParses(n: nat)
    ensures ParseNat(NatToString(n)) == n
    decreases n
  {
    if n >= 10 {
      var r := NatToString(n);
      NatToStringParses(n / 10);
      assert r[..|r| - 1] == NatToString(n / 10);
    }
  }

  lemma NatToStringInjective(m: nat, n: nat)
    requires NatToString(m) == NatToString(n)
    ensures m == n
  {
    NatToStringParses(m);
    NatToStringParses(n);
  }

  /** The text holds no line break. */
  predicate SingleLine(s: string) {
    '\n' !in s
  }

  /** Text whose only whitespace is the plain space is on one line. */
  lemma PlainSpaceSingleLine(s: string)
    requires OnlyPlainSpace(s)
    ensures SingleLine(s)
  {
    assert IsSpace('\n');
  }

  lemma StripSingleLine(s: string)
    requires SingleLine(s)
    ensures SingleLine(Strip(s))
  {
    var r := Strip(s);
    if r != [] {
      var i := Lead(s);
      assert forall k :: 0 <= k < |r| ==> r[k] == s[i + k];
    }
  }

  /** Python's `sep.join(parts)`. */
  function Join(parts: seq<string>, sep: string): (r: string)
    ensures |parts| > 0 ==> StartsWith(r, parts[0])
    ensures |parts| == 0 ==> r == ""
    ensures AllSpace(sep) ==>
      (AllSpace(r) <==> forall k :: 0 <= k < |parts| ==> AllSpace(parts[k]))
  {
    if |parts| == 0 then ""
    else if |parts| == 1 then parts[0]
    else
      var rest := Join(parts[1..], sep);
      var r := parts[0] + sep + rest;
      assert r[..|parts[0]|] == parts[0];
      assert forall k :: 0 <= k < |parts[0]| ==> r[k] == parts[0][k];
      assert forall k :: 0 <= k < |sep| ==> r[|parts[0]| + k] == sep[k];
      assert forall k :: 0 <= k < |rest| ==> r[|parts[0]| + |sep| + k] == rest[k];
      assert forall k :: 1 <= k < |parts| ==> parts[k] == parts[1..][k - 1];
      r
  }

  /** Appending a part appends the separator and the part. */
  lemma {:induction false} JoinSnoc(parts: seq<string>, x: string, sep: string)
    requires |parts| > 0
    ensures Join(parts + [x], sep) == Join(parts, sep) + sep + x
    decreases |parts|
  {
    if |parts| > 1 {
      assert (parts + [x])[1..] == parts[1..] + [x];
      JoinSnoc(parts[1..], x, sep);
    }
  }

  /** Python's `s.split(c)` for a one-character separator: the pieces
      between the occurrences of `c`, empty ones included. */
  function Split(s: string, c: char): (r: seq<string>)
    ensures |r| > 0
    decreases |s|
  {
    if |s| == 0 then [""]
    else
      var rest := Split(s[1..], c);
      if s[0] == c then [""] + rest else [[s[0]] + rest[0]] + rest[1..]
  }

  lemma {:induction false} SplitNoSeparator(a: string, c: char)
    requires c !in a
    ensures Split(a, c) == [a]
    decreases |a|
  {
    if |a| > 0 {
      assert c !in a[1..];
      SplitNoSeparator(a[1..], c);
      assert a == [a[0]] + a[1..];
    }
  }

  lemma {:induction false} SplitAfter(a: string, c: char, b: string)
    requires c !in a
    ensures Split(a + [c] + b, c) == [a] + Split(b, c)
    decreases |a|
  {
    var t := a + [c] + b;
    if |a| == 0 {
      assert t[1..] == b;
    } else {
      assert t[1..] == a[1..] + [c] + b;
      assert c !in a[1..];
      SplitAfter(a[1..], c, b);
      assert a == [a[0]] + a[1..];
    }
  }

  /** Splitting at the separator gives back the joined parts when no part
      holds the separator. */
  lemma {:induction false} SplitJoin(parts: seq<string>, c: char)
    requires |parts| > 0
    requires forall k :: 0 <= k < |parts| ==> c !in parts[k]
    ensures Split(Join(parts, [c]), c) == parts
    decreases |parts|
  {
    if |parts| == 1 {
      SplitNoSeparator(parts[0], c);
    } else {
      SplitJoin(parts[1..], c);
      SplitAfter(parts[0], c, Join(parts[1..], [c]));
      assert parts == [parts[0]] + parts[1..];
    }
  }
}
