/** String and sequence helpers with the semantics of the Python built-ins
    the scripts call: `str.strip()`, `str.split(sep)`, `str.replace(from, to)`
    for one character, slicing `s[:n]` and the substring test `t in s`. */
module Text {

  /** The characters Python's `str.isspace()` accepts, which are exactly the
      ones `str.strip()` with no argument removes. */
  predicate IsSpace(c: char) {
    || ('\U{9}' <= c <= '\U{D}')
    || ('\U{1C}' <= c <= '\U{20}')
    || c == '\U{85}' || c == '\U{A0}' || c == '\U{1680}'
    || ('\U{2000}' <= c <= '\U{200A}')
    || c == '\U{2028}' || c == '\U{2029}' || c == '\U{202F}' || c == '\U{205F}' || c == '\U{3000}'
  }

  /** Neither end of `s` is whitespace. */
  predicate IsStripped(s: string) {
    |s| == 0 || (!IsSpace(s[0]) && !IsSpace(s[|s| - 1]))
  }

  /** `s` with its leading whitespace removed: a suffix of `s`, everything
      dropped is whitespace and what is kept does not start with whitespace. */
  function TrimLeft(s: string): (r: string)
    ensures |r| <= |s| && r == s[|s| - |r|..]
    ensures forall i :: 0 <= i < |s| - |r| ==> IsSpace(s[i])
    ensures |r| > 0 ==> !IsSpace(r[0])
  {
    if |s| > 0 && IsSpace(s[0]) then TrimLeft(s[1..]) else s
  }

  /** `s` with its trailing whitespace removed: a prefix of `s`, everything
      dropped is whitespace and what is kept does not end with whitespace. */
  function TrimRight(s: string): (r: string)
    ensures |r| <= |s| && r == s[..|r|]
    ensures forall i :: |r| <= i < |s| ==> IsSpace(s[i])
    ensures |r| > 0 ==> !IsSpace(r[|r| - 1])
  {
    if |s| > 0 && IsSpace(s[|s| - 1]) then TrimRight(s[..|s| - 1]) else s
  }

  /** Where the text kept by `Strip` begins. */
  function StripStart(s: string): (lo: nat)
    ensures lo <= |s|
  {
    |s| - |TrimLeft(s)|
  }

  /** Python's `s.strip()`: the slice of `s` starting at `StripStart(s)`,
      with no whitespace at either end of it. `StripDropsOnlySpace` shows
      that only whitespace lies outside it. */
  function Strip(s: string): (r: string)
    ensures IsStripped(r)
    ensures StripStart(s) + |r| <= |s|
    ensures r == s[StripStart(s)..StripStart(s) + |r|]
  {
    TrimRight(TrimLeft(s))
  }

  /** Everything `strip()` removes is whitespace, on both sides. */
  lemma StripDropsOnlySpace(s: string)
    ensures forall i :: 0 <= i < StripStart(s) ==> IsSpace(s[i])
    ensures forall i :: StripStart(s) + |Strip(s)| <= i < |s| ==> IsSpace(s[i])
  {
  }

  /** A string that already has no whitespace at its ends is left alone. */
  lemma StripStripped(s: string)
    requires IsStripped(s)
    ensures Strip(s) == s
  {
  }

  /** Stripping twice is stripping once. */
  lemma StripIdempotent(s: string)
    ensures Strip(Strip(s)) == Strip(s)
  {
    StripStripped(Strip(s));
  }

  /** Every character of `s` is whitespace. */
  predicate AllSpace(s: string) {
    forall i :: 0 <= i < |s| ==> IsSpace(s[i])
  }

  /** The rest of a whitespace-only text is whitespace only. */
  lemma AllSpaceTail(s: string)
    requires |s| > 0 && AllSpace(s)
    ensures IsSpace(s[0]) && AllSpace(s[1..])
  {
    assert forall i :: 0 <= i < |s| - 1 ==> s[1..][i] == s[i + 1];
  }

  /** A text cut in three at `lo <= hi` joins back to itself. */
  lemma ThreeSlices(s: string, lo: nat, hi: nat)
    requires lo <= hi <= |s|
    ensures s == s[..lo] + (s[lo..hi] + s[hi..])
  {
  }

  /** A whitespace-only front of a text. */
  lemma SpacePrefix(s: string, lo: nat)
    requires lo <= |s|
    requires forall i :: 0 <= i < lo ==> IsSpace(s[i])
    ensures AllSpace(s[..lo])
  {
    assert forall i :: 0 <= i < lo ==> s[..lo][i] == s[i];
  }

  /** A whitespace-only end of a text. */
  lemma SpaceSuffix(s: string, hi: nat)
    requires hi <= |s|
    requires forall i :: hi <= i < |s| ==> IsSpace(s[i])
    ensures AllSpace(s[hi..])
  {
    assert forall i :: 0 <= i < |s| - hi ==> s[hi..][i] == s[hi + i];
  }

  /** A text is its leading whitespace, its stripped body and its trailing
      whitespace. */
  lemma StripFrame(s: string) returns (p: string, q: string)
    ensures AllSpace(p) && AllSpace(q)
    ensures s == p + (Strip(s) + q)
  {
    var r, lo := Strip(s), StripStart(s);
    var hi := lo + |r|;
    p, q := s[..lo], s[hi..];
    ThreeSlices(s, lo, hi);
    SpacePrefix(s, lo);
    SpaceSuffix(s, hi);
  }

  /** A text of whitespace only loses everything to `TrimLeft`. */
  lemma {:induction false} TrimLeftAllSpace(s: string)
    requires AllSpace(s)
    ensures TrimLeft(s) == ""
    decreases |s|
  {
    if |s| > 0 {
      AllSpaceTail(s);
      TrimLeftAllSpace(s[1..]);
    }
  }

  /** A text of whitespace only strips to nothing. */
  lemma StripAllSpace(s: string)
    requires AllSpace(s)
    ensures Strip(s) == ""
  {
    TrimLeftAllSpace(s);
  }

  /** Whitespace in front of a text is trimmed along with the text's own. */
  lemma {:induction false} TrimLeftSpaces(w: string, t: string)
    requires AllSpace(w)
    ensures TrimLeft(w + t) == TrimLeft(t)
    decreases |w|
  {
    if |w| > 0 {
      AllSpaceTail(w);
      var wt := w + t;
      assert wt[0] == w[0];
      assert wt[1..] == w[1..] + t;
      assert TrimLeft(wt) == TrimLeft(wt[1..]);
      TrimLeftSpaces(w[1..], t);
    } else {
      assert w + t == t;
    }
  }

  /** Whitespace after a text is trimmed along with the text's own. */
  lemma {:induction false} TrimRightSpaces(t: string, w: string)
    requires AllSpace(w)
    ensures TrimRight(t + w) == TrimRight(t)
    decreases |w|
  {
    if |w| > 0 {
      var front := w[..|w| - 1];
      assert AllSpace(front) by {
        assert forall i :: 0 <= i < |front| ==> front[i] == w[i];
      }
      var tw := t + w;
      assert tw[|tw| - 1] == w[|w| - 1];
      assert tw[..|tw| - 1] == t + front;
      assert TrimRight(tw) == TrimRight(tw[..|tw| - 1]);
      TrimRightSpaces(t, front);
    } else {
      assert t + w == t;
    }
  }

  /** Trimming the front of `t + w`: unless `t` is all whitespace, only
      `t`'s leading whitespace goes. */
  lemma {:induction false} TrimLeftAppend(t: string, w: string)
    requires !AllSpace(t)
    ensures TrimLeft(t + w) == TrimLeft(t) + w
    decreases |t|
  {
    var tw := t + w;
    assert tw[0] == t[0];
    if IsSpace(t[0]) {
      assert !AllSpace(t[1..]) by {
        var k :| 0 <= k < |t| && !IsSpace(t[k]);
        assert t[1..][k - 1] == t[k];
      }
      assert tw[1..] == t[1..] + w;
      assert TrimLeft(tw) == TrimLeft(tw[1..]);
      TrimLeftAppend(t[1..], w);
    } else {
      assert TrimLeft(tw) == tw;
    }
  }

  /** Whitespace in front of a text does not change what `strip()` keeps. */
  lemma StripSpacesBefore(w: string, t: string)
    requires AllSpace(w)
    ensures Strip(w + t) == Strip(t)
  {
    TrimLeftSpaces(w, t);
  }

  /** Whitespace after a text does not change what `strip()` keeps. */
  lemma StripSpacesAfter(t: string, w: string)
    requires AllSpace(w)
    ensures Strip(t + w) == Strip(t)
  {
    if AllSpace(t) {
      assert AllSpace(t + w) by {
        assert forall i :: 0 <= i < |t + w| ==> (t + w)[i] == if i < |t| then t[i] else w[i - |t|];
      }
      StripAllSpace(t + w);
      StripAllSpace(t);
    } else {
      TrimLeftAppend(t, w);
      TrimRightSpaces(TrimLeft(t), w);
    }
  }

  /** Python's `s.split(sep)` for a one-character separator: at least one
      piece, no piece contains the separator. */
  function Split(s: string, sep: char): (r: seq<string>)
    ensures |r| >= 1
    ensures forall i :: 0 <= i < |r| ==> sep !in r[i]
  {
    if |s| == 0 then [""]
    else
      var rest := Split(s[1..], sep);
      if s[0] == sep then [""] + rest
      else [[s[0]] + rest[0]] + rest[1..]
  }

  /** `sep.join(parts)`, the inverse of `Split`. */
  function Join(parts: seq<string>, sep: char): string
    requires |parts| >= 1
  {
    if |parts| == 1 then parts[0] else parts[0] + [sep] + Join(parts[1..], sep)
  }

  /** Splitting and joining back on the same separator gives the original. */
  lemma {:induction false} JoinSplit(s: string, sep: char)
    ensures Join(Split(s, sep), sep) == s
  {
    if |s| == 0 {
    } else {
      var rest := Split(s[1..], sep);
      JoinSplit(s[1..], sep);
      if s[0] == sep {
        assert Split(s, sep) == [""] + rest;
        assert Join([""] + rest, sep) == "" + [sep] + Join(rest, sep);
        assert s == [s[0]] + s[1..];
      } else {
        var parts := [[s[0]] + rest[0]] + rest[1..];
        assert Split(s, sep) == parts;
        if |rest| == 1 {
          assert Join(rest, sep) == rest[0];
        } else {
          assert rest == [rest[0]] + rest[1..];
          assert Join(rest, sep) == rest[0] + [sep] + Join(rest[1..], sep);
          assert parts[1..] == rest[1..];
        }
        assert s == [s[0]] + s[1..];
      }
    }
  }

  /** Prepending a character that is not the separator extends the first piece. */
  lemma SplitCons(c: char, s: string, sep: char)
    requires c != sep
    ensures Split([c] + s, sep) == [[c] + Split(s, sep)[0]] + Split(s, sep)[1..]
  {
    assert ([c] + s)[1..] == s;
  }

  /** Splitting a piece followed by the separator and more text. */
  lemma {:induction false} SplitAppend(p: string, s: string, sep: char)
    requires sep !in p
    ensures Split(p + [sep] + s, sep) == [p] + Split(s, sep)
  {
    if |p| == 0 {
      assert p + [sep] + s == [sep] + s;
      assert ([sep] + s)[1..] == s;
    } else {
      SplitAppend(p[1..], s, sep);
      assert p + [sep] + s == [p[0]] + (p[1..] + [sep] + s);
      SplitCons(p[0], p[1..] + [sep] + s, sep);
      assert [p[0]] + p[1..] == p;
    }
  }

  /** A piece without the separator splits into itself. */
  lemma {:induction false} SplitNoSep(p: string, sep: char)
    requires sep !in p
    ensures Split(p, sep) == [p]
  {
    if |p| > 0 {
      SplitNoSep(p[1..], sep);
      SplitCons(p[0], p[1..], sep);
      assert [p[0]] + p[1..] == p;
    }
  }

  /** Joining pieces that do not contain the separator and splitting again
      gives back the pieces. */
  lemma {:induction false} SplitJoin(parts: seq<string>, sep: char)
    requires |parts| >= 1
    requires forall i :: 0 <= i < |parts| ==> sep !in parts[i]
    ensures Split(Join(parts, sep), sep) == parts
  {
    if |parts| == 1 {
      SplitNoSep(parts[0], sep);
    } else {
      SplitJoin(parts[1..], sep);
      SplitAppend(parts[0], Join(parts[1..], sep), sep);
      assert parts == [parts[0]] + parts[1..];
    }
  }

  /** The pieces of `a + b` from those of `a` and of `b`: the last piece of
      `a` runs into the first piece of `b`. */
  function Glue(xs: seq<string>, ys: seq<string>): seq<string>
    requires |xs| >= 1 && |ys| >= 1
  {
    xs[..|xs| - 1] + [xs[|xs| - 1] + ys[0]] + ys[1..]
  }

  /** A leading empty piece stays in front of the glued pieces. */
  lemma GlueEmptyFirst(xs: seq<string>, ys: seq<string>)
    requires |xs| >= 1 && |ys| >= 1
    ensures Glue([""] + xs, ys) == [""] + Glue(xs, ys)
  {
    var zs := [""] + xs;
    assert zs[..|zs| - 1] == [""] + xs[..|xs| - 1];
    assert zs[|zs| - 1] == xs[|xs| - 1];
  }

  /** A character put in front of the first piece stays in front of the
      first glued piece. */
  lemma GlueConsFirst(c: char, xs: seq<string>, ys: seq<string>)
    requires |xs| >= 1 && |ys| >= 1
    ensures var g := Glue(xs, ys);
            Glue([[c] + xs[0]] + xs[1..], ys) == [[c] + g[0]] + g[1..]
  {
    var zs := [[c] + xs[0]] + xs[1..];
    var g := Glue(xs, ys);
    if |xs| == 1 {
      assert zs == [[c] + xs[0]];
      assert g == [xs[0] + ys[0]] + ys[1..];
      assert [c] + (xs[0] + ys[0]) == ([c] + xs[0]) + ys[0];
    } else {
      assert zs[..|zs| - 1] == [[c] + xs[0]] + xs[1..|xs| - 1];
      assert zs[|zs| - 1] == xs[|xs| - 1];
      assert g[0] == xs[0];
      assert g[1..] == xs[1..|xs| - 1] + [xs[|xs| - 1] + ys[0]] + ys[1..];
    }
  }

  /** Splitting a concatenation glues the two splits. */
  lemma {:induction false} SplitConcat(a: string, b: string, sep: char)
    ensures Split(a + b, sep) == Glue(Split(a, sep), Split(b, sep))
    decreases |a|
  {
    var ys := Split(b, sep);
    if |a| == 0 {
      assert a + b == b;
      var empty: seq<string> := [""];
      assert empty[..0] == [] && empty[0] + ys[0] == ys[0];
      assert ys == [ys[0]] + ys[1..];
    } else {
      var ab := a + b;
      assert ab[0] == a[0];
      assert ab[1..] == a[1..] + b;
      SplitConcat(a[1..], b, sep);
      var xs := Split(a[1..], sep);
      if a[0] == sep {
        GlueEmptyFirst(xs, ys);
      } else {
        GlueConsFirst(a[0], xs, ys);
      }
    }
  }

  /** Every piece of a whitespace-only text is whitespace only. */
  lemma {:induction false} SplitAllSpace(s: string, sep: char)
    requires AllSpace(s)
    ensures forall i :: 0 <= i < |Split(s, sep)| ==> AllSpace(Split(s, sep)[i])
  {
    if |s| > 0 {
      assert forall i :: 0 <= i < |s| - 1 ==> s[1..][i] == s[i + 1];
      SplitAllSpace(s[1..], sep);
      var rest := Split(s[1..], sep);
      if s[0] != sep {
        var first := [s[0]] + rest[0];
        assert forall i :: 1 <= i < |first| ==> first[i] == rest[0][i - 1];
        assert Split(s, sep) == [first] + rest[1..];
      }
    }
  }

  /** Python's `s.replace(from, to)` for single characters. */
  function ReplaceChar(s: string, from: char, to: char): (r: string)
    ensures |r| == |s|
    ensures forall i :: 0 <= i < |s| ==> r[i] == (if s[i] == from then to else s[i])
  {
    seq(|s|, i requires 0 <= i < |s| => if s[i] == from then to else s[i])
  }

  /** Python's slice `s[:n]` for n >= 0: at most n elements, a prefix of s. */
  function Take<T>(s: seq<T>, n: nat): (r: seq<T>)
    ensures |r| == if |s| < n then |s| else n
    ensures r <= s
  {
    if |s| <= n then s else s[..n]
  }

  /** Python's substring test `t in s`. */
  predicate Contains(s: string, t: string) {
    t <= s || (|s| > 0 && Contains(s[1..], t))
  }

  /** No element occurs twice. */
  predicate Distinct<T(==)>(xs: seq<T>) {
    forall i, j :: 0 <= i < j < |xs| ==> xs[i] != xs[j]
  }

  /** A sequence with one more element in front stays distinct exactly when
      that element is new. */
  lemma DistinctCons<T>(x: T, xs: seq<T>)
    ensures Distinct([x] + xs) <==> x !in xs && Distinct(xs)
  {
    if x !in xs && Distinct(xs) {
      forall i, j | 0 <= i < j < |[x] + xs|
        ensures ([x] + xs)[i] != ([x] + xs)[j]
      {
        if i > 0 {
          assert ([x] + xs)[i] == xs[i - 1];
        }
      }
    }
    if Distinct([x] + xs) {
      assert forall i :: 0 <= i < |xs| ==> xs[i] == ([x] + xs)[i + 1];
      forall k | 0 <= k < |xs|
        ensures xs[k] != x
      {
        assert ([x] + xs)[k + 1] == xs[k] && ([x] + xs)[0] == x;
      }
    }
  }

  /** Appending a new element keeps a sequence distinct. */
  lemma DistinctSnoc<T>(xs: seq<T>, x: T)
    requires x !in xs && Distinct(xs)
    ensures Distinct(xs + [x])
  {
  }

  /** The position of the last occurrence of `x` in `xs`. */
  function LastIndex<T(==)>(xs: seq<T>, x: T): (i: nat)
    requires x in xs
    ensures i < |xs| && xs[i] == x
    ensures forall j :: i < j < |xs| ==> xs[j] != x
    decreases |xs|
  {
    if xs[|xs| - 1] == x then |xs| - 1
    else
      var front := xs[..|xs| - 1];
      assert x in front by {
        var k :| 0 <= k < |xs| && xs[k] == x;
        assert front[k] == x;
      }
      LastIndex(front, x)
  }

  /** One more element at the back is the last occurrence of itself and
      leaves the last occurrence of every other element where it was. */
  lemma LastIndexSnoc<T>(xs: seq<T>, y: T, x: T)
    requires x in xs + [y]
    ensures x != y ==> x in xs
    ensures LastIndex(xs + [y], x) == if x == y then |xs| else LastIndex(xs, x)
  {
    assert (xs + [y])[..|xs|] == xs;
  }

  /** An occurrence with no later copy is the last one. */
  lemma LastIndexOfLast<T>(xs: seq<T>, i: nat)
    requires i < |xs| && xs[i] !in xs[i + 1..]
    ensures LastIndex(xs, xs[i]) == i
  {
  }

  /** A stripped text padded with whitespace on both sides strips back to
      itself. */
  lemma StripPadded(w1: string, name: string, w2: string)
    requires AllSpace(w1) && AllSpace(w2) && IsStripped(name)
    ensures Strip(w1 + name + w2) == name
  {
    assert w1 + name + w2 == w1 + (name + w2);
    StripSpacesBefore(w1, name + w2);
    StripSpacesAfter(name, w2);
    StripStripped(name);
  }
}
