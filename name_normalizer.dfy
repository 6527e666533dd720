/** `NameNormalizer`: turns a Zoom meeting topic into the name, date and folder path under
    which its recording is backed up. Each regular expression of the source is written out as
    a scan that follows PCRE's leftmost match and its greedy, backtracking order; without the
    `u` flag, `\s`, `\d`, `\b` and case folding are ASCII. */
module NameNormalizer {
  import opened Wrappers
  import opened Php

  /** The array `normalizeFileName` returns. */
  datatype Normalized = Normalized(name: string, date: string, path: seq<string>)

  /** PCRE `\b` between positions `p - 1` and `p`. */
  predicate Boundary(s: string, p: nat)
    requires p <= |s|
  {
    (p > 0 && IsWordChar(s[p - 1])) != (p < |s| && IsWordChar(s[p]))
  }

  /** The length of the run of `\s` that begins at `p`. */
  function SpaceRunAt(s: string, p: nat): (n: nat)
    requires p <= |s|
    ensures p + n <= |s|
    decreases |s| - p
  {
    if p < |s| && IsSpace(s[p]) then 1 + SpaceRunAt(s, p + 1) else 0
  }

  /** The run is all blanks and stops before a non-blank or at the end. */
  lemma {:induction false} SpaceRunIsMaximal(s: string, p: nat)
    requires p <= |s|
    ensures forall i :: p <= i < p + SpaceRunAt(s, p) ==> IsSpace(s[i])
    ensures p + SpaceRunAt(s, p) == |s| || !IsSpace(s[p + SpaceRunAt(s, p)])
    decreases |s| - p
  {
    if p < |s| && IsSpace(s[p]) {
      SpaceRunIsMaximal(s, p + 1);
    }
  }

  /** Where the run of `\s` that ends at `e` begins. */
  function BlankTailStart(s: string, e: nat): (t: nat)
    requires e <= |s|
    ensures t <= e
    ensures forall i :: t <= i < e ==> IsSpace(s[i])
    ensures t == 0 || !IsSpace(s[t - 1])
  {
    if e > 0 && IsSpace(s[e - 1]) then BlankTailStart(s, e - 1) else e
  }

  /** `u` is the part of `s` from `d` on. */
  predicate SuffixAt(s: string, d: nat, u: string) {
    d + |u| == |s| && forall i :: 0 <= i < |u| ==> s[d + i] == u[i]
  }

  // ---------------------------------------------------------------- removeBrackets

  /** `.*?\]` from `q`: the first `]`, when no line feed comes before it. */
  function CloseAt(s: string, q: nat): (r: Option<nat>)
    requires q <= |s|
    ensures r.Some? ==> q <= r.value < |s| && s[r.value] == ']'
    decreases |s| - q
  {
    if q == |s| || s[q] == '\n' then None
    else if s[q] == ']' then Some(q)
    else CloseAt(s, q + 1)
  }

  /** Where a match of `\s*\[.*?\]\s*` that starts at `p` ends; the greedy blanks never
      need to give anything back, as a blank is not `[`. */
  function BracketAt(s: string, p: nat): (r: Option<nat>)
    requires p <= |s|
    ensures r.Some? ==> p < r.value <= |s|
  {
    var k := p + SpaceRunAt(s, p);
    if k < |s| && s[k] == '[' then
      match CloseAt(s, k + 1)
      case None => None
      case Some(c) => Some(c + 1 + SpaceRunAt(s, c + 1))
    else None
  }

  /** Every match of `\s*\[.*?\]\s*` in the text from `p` replaced by one space. */
  function StripFrom(s: string, p: nat): string
    requires p <= |s|
    decreases |s| - p
  {
    if p == |s| then []
    else match BracketAt(s, p)
      case Some(e) => " " + StripFrom(s, e)
      case None => [s[p]] + StripFrom(s, p + 1)
  }

  /** `removeBrackets`: each bracketed segment, with the blanks around it, becomes one space. */
  function RemoveBrackets(s: string): string {
    StripFrom(s, 0)
  }

  /** A name without `[` comes through unchanged. */
  lemma {:induction false} NoBracketUnchanged(s: string, p: nat)
    requires p <= |s| && '[' !in s
    ensures StripFrom(s, p) == s[p..]
    decreases |s| - p
  {
    if p < |s| {
      var k := p + SpaceRunAt(s, p);
      assert k < |s| ==> s[k] != '[';
      NoBracketUnchanged(s, p + 1);
      assert s[p..] == [s[p]] + s[p + 1..];
    }
  }

  // The shift lemmas relate position `p` of `s` to position `q` of its suffix `u`, with
  // `p == d + q` passed in rather than written as a sum inside the function applications.

  lemma {:induction false} SpaceRunShift(s: string, d: nat, u: string, q: nat, p: nat)
    requires SuffixAt(s, d, u) && q <= |u| && p == d + q
    ensures SpaceRunAt(s, p) == SpaceRunAt(u, q)
    decreases |u| - q
  {
    if q < |u| {
      assert s[p] == u[q];
      SpaceRunShift(s, d, u, q + 1, p + 1);
    }
  }

  lemma {:induction false} CloseShift(s: string, d: nat, u: string, q: nat, p: nat)
    requires SuffixAt(s, d, u) && q <= |u| && p == d + q
    ensures CloseAt(s, p).None? == CloseAt(u, q).None?
    ensures CloseAt(u, q).Some? ==> CloseAt(s, p).value == d + CloseAt(u, q).value
    decreases |u| - q
  {
    if q < |u| {
      assert s[p] == u[q];
      CloseShift(s, d, u, q + 1, p + 1);
    }
  }

  lemma BracketShift(s: string, d: nat, u: string, q: nat, p: nat)
    requires SuffixAt(s, d, u) && q <= |u| && p == d + q
    ensures BracketAt(s, p).None? == BracketAt(u, q).None?
    ensures BracketAt(u, q).Some? ==> BracketAt(s, p).value == d + BracketAt(u, q).value
  {
    SpaceRunShift(s, d, u, q, p);
    var k := q + SpaceRunAt(u, q);
    if k < |u| {
      assert s[d + k] == u[k];
      CloseShift(s, d, u, k + 1, d + k + 1);
      match CloseAt(u, k + 1) {
        case None =>
        case Some(c) => SpaceRunShift(s, d, u, c + 1, d + c + 1);
      }
    }
  }

  /** `StripFrom` at a position where a bracketed segment ends at `e`. */
  lemma StripAtMatch(s: string, p: nat, e: nat)
    requires p < |s| && BracketAt(s, p) == Some(e)
    ensures StripFrom(s, p) == " " + StripFrom(s, e)
  {
  }

  /** `StripFrom` at a position where no bracketed segment starts. */
  lemma StripAtCopy(s: string, p: nat)
    requires p < |s| && BracketAt(s, p).None?
    ensures StripFrom(s, p) == [s[p]] + StripFrom(s, p + 1)
  {
  }

  lemma BracketShiftSome(s: string, d: nat, u: string, q: nat, p: nat, e: nat, f: nat)
    requires SuffixAt(s, d, u) && q <= |u| && p == d + q && f == d + e && BracketAt(u, q) == Some(e)
    ensures BracketAt(s, p) == Some(f)
  {
    BracketShift(s, d, u, q, p);
  }

  lemma BracketShiftNone(s: string, d: nat, u: string, q: nat, p: nat)
    requires SuffixAt(s, d, u) && q <= |u| && p == d + q && BracketAt(u, q).None?
    ensures BracketAt(s, p).None?
  {
    BracketShift(s, d, u, q, p);
  }

  /** A step of `StripShift` over a bracketed segment that ends at `e` in the suffix. */
  lemma StripShiftMatch(s: string, d: nat, u: string, q: nat, p: nat, e: nat, f: nat)
    requires SuffixAt(s, d, u) && q < |u| && p == d + q && f == d + e && BracketAt(u, q) == Some(e)
    requires StripFrom(s, f) == StripFrom(u, e)
    ensures StripFrom(s, p) == StripFrom(u, q)
  {
    BracketShiftSome(s, d, u, q, p, e, f);
    StripAtMatch(s, p, f);
    StripAtMatch(u, q, e);
  }

  /** A step of `StripShift` over one copied character. */
  lemma StripShiftCopy(s: string, d: nat, u: string, q: nat, p: nat)
    requires SuffixAt(s, d, u) && q < |u| && p == d + q && BracketAt(u, q).None?
    requires StripFrom(s, p + 1) == StripFrom(u, q + 1)
    ensures StripFrom(s, p) == StripFrom(u, q)
  {
    BracketShiftNone(s, d, u, q, p);
    StripAtCopy(s, p);
    StripAtCopy(u, q);
    assert s[p] == u[q];
  }

  /** Stripping the tail of a text gives what stripping that tail alone gives. */
  lemma {:induction false} StripShift(s: string, d: nat, u: string, q: nat, p: nat)
    requires SuffixAt(s, d, u) && q <= |u| && p == d + q
    ensures StripFrom(s, p) == StripFrom(u, q)
    decreases |u| - q
  {
    if q < |u| {
      match BracketAt(u, q) {
        case Some(e) =>
          var f := d + e;
          StripShift(s, d, u, e, f);
          StripShiftMatch(s, d, u, q, p, e, f);
        case None =>
          StripShift(s, d, u, q + 1, p + 1);
          StripShiftCopy(s, d, u, q, p);
      }
    } else {
      assert p == |s|;
    }
  }

  /** The text of a bracketed segment is passed over up to its `]`. */
  lemma {:induction false} CloseInSegment(s: string, q: nat, c: nat)
    requires q <= c < |s| && s[c] == ']'
    requires forall i :: q <= i < c ==> s[i] != ']' && s[i] != '\n'
    ensures CloseAt(s, q) == Some(c)
    decreases c - q
  {
    if q < c {
      CloseInSegment(s, q + 1, c);
    }
  }

  /** No bracketed segment starts ahead of the blanks before the first `[`. */
  lemma NoBracketBefore(s: string, la: nat, t: nat, p: nat)
    requires la < |s| && p < t <= la
    requires forall i :: 0 <= i < la ==> s[i] != '['
    requires !IsSpace(s[t - 1])
    ensures BracketAt(s, p).None?
  {
    SpaceRunIsMaximal(s, p);
    var k := p + SpaceRunAt(s, p);
    assert k < t;
    assert s[k] != '[';
  }

  /** Before the trailing blanks of the text ahead of the bracket, every character is kept. */
  lemma {:induction false} StripBeforeBracket(s: string, la: nat, t: nat, e: nat, p: nat)
    requires la < |s| && t <= la && e <= |s| && p <= t
    requires forall i :: 0 <= i < la ==> s[i] != '['
    requires t == 0 || !IsSpace(s[t - 1])
    requires BracketAt(s, t) == Some(e)
    ensures StripFrom(s, p) == s[p..t] + (" " + StripFrom(s, e))
    decreases t - p
  {
    if p == t {
      StripAtMatch(s, t, e);
      EmptySlice(s, p, " " + StripFrom(s, e));
    } else {
      NoBracketBefore(s, la, t, p);
      StripAtCopy(s, p);
      StripBeforeBracket(s, la, t, e, p + 1);
      ConsSlice(s, p, t, " " + StripFrom(s, e));
    }
  }

  lemma EmptySlice(s: string, p: nat, tail: string)
    requires p <= |s|
    ensures s[p..p] + tail == tail
  {
    assert s[p..p] == [];
  }

  /** Putting a character back in front of the rest of a slice. */
  lemma ConsSlice(s: string, p: nat, t: nat, tail: string)
    requires p < t <= |s|
    ensures [s[p]] + (s[p + 1..t] + tail) == s[p..t] + tail
  {
    assert s[p..t] == [s[p]] + s[p + 1..t];
  }

  /** A run of blanks that ends at a non-blank has exactly that length. */
  lemma {:induction false} SpaceRunExact(s: string, t: nat, k: nat)
    requires t <= k < |s| && !IsSpace(s[k])
    requires forall i :: t <= i < k ==> IsSpace(s[i])
    ensures SpaceRunAt(s, t) == k - t
    decreases k - t
  {
    if t < k {
      SpaceRunExact(s, t + 1, k);
    }
  }

  /** The match that begins at the blanks before `[`, with its `]` at `c`. */
  lemma BracketAtExact(s: string, t: nat, la: nat, c: nat, off: nat, e: nat)
    requires t <= la < |s| && SpaceRunAt(s, t) == la - t && s[la] == '['
    requires CloseAt(s, la + 1) == Some(c) && off == c + 1 && e == off + SpaceRunAt(s, off)
    ensures BracketAt(s, t) == Some(e)
  {
    var k := t + SpaceRunAt(s, t);
    assert k == la && s[k] == '[';
    assert CloseAt(s, k + 1) == Some(c);
  }

  /** The layout of a name with one bracketed segment after a bracket-free prefix. */
  lemma Layout(a: string, x: string, b: string, s: string)
    requires s == a + "[" + x + "]" + b
    ensures |s| == |a| + |x| + 2 + |b|
    ensures forall i :: 0 <= i < |a| ==> s[i] == a[i]
    ensures s[|a|] == '[' && s[|a| + |x| + 1] == ']'
    ensures forall i :: 0 <= i < |x| ==> s[|a| + 1 + i] == x[i]
    ensures SuffixAt(s, |a| + |x| + 2, b)
  {
  }

  /** The `]` closing the segment is the first one after `[`. */
  lemma CloseOfSegment(a: string, x: string, s: string)
    requires |a| + |x| + 1 < |s| && s[|a| + |x| + 1] == ']'
    requires forall i :: 0 <= i < |x| ==> s[|a| + 1 + i] == x[i]
    requires ']' !in x && '\n' !in x
    ensures CloseAt(s, |a| + 1) == Some(|a| + |x| + 1)
  {
    forall i | |a| + 1 <= i < |a| + |x| + 1
      ensures s[i] != ']' && s[i] != '\n'
    {
      assert s[|a| + 1 + (i - |a| - 1)] == x[i - |a| - 1];
    }
    CloseInSegment(s, |a| + 1, |a| + |x| + 1);
  }

  /** `StripFrom` over a text whose first `[` is at `la`, closed at `c`, and followed by `u`. */
  lemma StripFirstSegment(s: string, la: nat, c: nat, t: nat, u: string)
    requires t <= la < c < |s| && s[la] == '[' && CloseAt(s, la + 1) == Some(c)
    requires forall i :: 0 <= i < la ==> s[i] != '['
    requires forall i :: t <= i < la ==> IsSpace(s[i])
    requires t == 0 || !IsSpace(s[t - 1])
    requires SuffixAt(s, c + 1, u)
    ensures StripFrom(s, 0) == s[0..t] + (" " + StripFrom(u, SpaceRunAt(u, 0)))
  {
    var off := c + 1;
    var n := SpaceRunAt(u, 0);
    var e := off + n;
    SpaceRunExact(s, t, la);
    SpaceRunShift(s, off, u, 0, off);
    BracketAtExact(s, t, la, c, off, e);
    StripBeforeBracket(s, la, t, e, 0);
    StripShift(s, off, u, n, e);
  }

  /** What stands between `[` and the first `]` after it never reaches the result: the
      segment and the blanks around it become one space, whatever it holds. */
  lemma BracketContentIgnored(a: string, x: string, b: string)
    requires '[' !in a && ']' !in x && '\n' !in x
    ensures RemoveBrackets(a + "[" + x + "]" + b)
            == a[..BlankTailStart(a, |a|)] + (" " + StripFrom(b, SpaceRunAt(b, 0)))
  {
    var s := a + "[" + x + "]" + b;
    Layout(a, x, b, s);
    var t := BlankTailStart(a, |a|);
    assert forall i :: 0 <= i < |a| ==> s[i] != '[';
    assert forall i :: t <= i < |a| ==> IsSpace(s[i]);
    assert t == 0 || !IsSpace(s[t - 1]);
    CloseOfSegment(a, x, s);
    StripFirstSegment(s, |a|, |a| + |x| + 1, t, b);
    SamePrefix(s, a, t);
  }

  lemma SamePrefix(s: string, a: string, t: nat)
    requires t <= |a| <= |s| && forall i :: 0 <= i < |a| ==> s[i] == a[i]
    ensures s[0..t] == a[..t]
  {
  }

  // ---------------------------------------------------------------- extractDate

  /** `\b(20\d{6})\b` matches at `p`. */
  predicate DateAt(s: string, p: nat) {
    p + 8 <= |s| && Boundary(s, p) && s[p] == '2' && s[p + 1] == '0'
    && (forall i :: p + 2 <= i < p + 8 ==> IsDigit(s[i])) && Boundary(s, p + 8)
  }

  function FindDate(s: string, p: nat): (r: Option<nat>)
    requires p <= |s|
    ensures r.Some? ==> p <= r.value && DateAt(s, r.value) && forall i :: p <= i < r.value ==> !DateAt(s, i)
    ensures r.None? ==> forall i :: p <= i <= |s| ==> !DateAt(s, i)
    decreases |s| - p
  {
    if DateAt(s, p) then Some(p) else if p == |s| then None else FindDate(s, p + 1)
  }

  /** `extractDate`: the first standalone eight-digit token starting "20", otherwise the
      meeting time as `date('Ymd')`, an injected formatter. */
  function ExtractDate(name: string, timestamp: int, formatYmd: int -> string): (d: string)
    ensures forall q :: 0 <= q <= |name| && DateAt(name, q) && (forall i :: 0 <= i < q ==> !DateAt(name, i))
                        ==> d == name[q..q + 8]
    ensures (forall q :: 0 <= q <= |name| ==> !DateAt(name, q)) ==> d == formatYmd(timestamp)
  {
    match FindDate(name, 0)
    case Some(q) => name[q..q + 8]
    case None => formatYmd(timestamp)
  }

  // ---------------------------------------------------------------- detectCodePattern

  /** One way for `[A-Z]{2,3}-[A-Z0-9]{3,4}[A-Z]?\b` (case-insensitive) to match at `p`:
      `l` letters, the dash, `m` letters or digits, `o` optional letters. */
  predicate ShapeAt(s: string, p: nat, l: nat, m: nat, o: nat) {
    var e := p + l + 1 + m + o;
    e <= |s|
    && (forall i :: p <= i < p + l ==> IsLetter(s[i]))
    && s[p + l] == '-'
    && (forall i :: p + l + 1 <= i < p + l + 1 + m ==> IsAlnum(s[i]))
    && (o == 1 ==> IsLetter(s[e - 1]))
    && Boundary(s, e)
  }

  /** The shapes in the order PCRE backtracks through them: more letters first, then more
      letters or digits, then the optional letter taken before it is dropped. */
  const CODE_SHAPES: seq<(nat, nat, nat)> :=
    [(3, 4, 1), (3, 4, 0), (3, 3, 1), (3, 3, 0), (2, 4, 1), (2, 4, 0), (2, 3, 1), (2, 3, 0)]

  function FirstShape(s: string, p: nat, shapes: seq<(nat, nat, nat)>): (r: Option<(nat, nat, nat)>)
    ensures r.Some? ==> r.value in shapes && ShapeAt(s, p, r.value.0, r.value.1, r.value.2)
    ensures r.None? ==> forall sh :: sh in shapes ==> !ShapeAt(s, p, sh.0, sh.1, sh.2)
  {
    if |shapes| == 0 then None
    else if ShapeAt(s, p, shapes[0].0, shapes[0].1, shapes[0].2) then Some(shapes[0])
    else FirstShape(s, p, shapes[1..])
  }

  /** The code match at `p`, if the leading `\b` holds and some shape fits. */
  function CodeAt(s: string, p: nat): (r: Option<(nat, nat, nat)>)
    requires p <= |s|
    ensures r.Some? ==> 2 <= r.value.0 <= 3 && 3 <= r.value.1 <= 4 && r.value.2 <= 1
                        && ShapeAt(s, p, r.value.0, r.value.1, r.value.2)
  {
    if Boundary(s, p) then FirstShape(s, p, CODE_SHAPES) else None
  }

  function FindCode(s: string, p: nat): (r: Option<(nat, (nat, nat, nat))>)
    requires p <= |s|
    ensures r.Some? ==> p <= r.value.0 <= |s| && CodeAt(s, r.value.0) == Some(r.value.1)
    ensures r.None? ==> forall i :: p <= i <= |s| ==> CodeAt(s, i).None?
    decreases |s| - p
  {
    match CodeAt(s, p)
    case Some(sh) => Some((p, sh))
    case None => if p == |s| then None else FindCode(s, p + 1)
  }

  /** A detected code: two or three capitals, a dash, then three or four capitals or digits,
      optionally one more capital. */
  predicate CodeFormAt(c: string, l: nat) {
    l < |c| && c[l] == '-'
    && (forall i :: 0 <= i < l ==> IsUpper(c[i]))
    && 3 <= |c| - l - 1 <= 5
    && (forall i :: l < i < |c| ==> IsUpper(c[i]) || IsDigit(c[i]))
    && (|c| - l - 1 == 5 ==> IsUpper(c[|c| - 1]))
  }

  predicate CodeForm(c: string) {
    CodeFormAt(c, 2) || CodeFormAt(c, 3)
  }

  /** The text a shape spans: `l` letters, the dash, `m` letters or digits, then `o`
      optional letters. */
  predicate ShapeText(w: string, l: nat, m: nat, o: nat) {
    |w| == l + 1 + m + o
    && (forall i :: 0 <= i < l ==> IsLetter(w[i]))
    && w[l] == '-'
    && (forall i :: l < i < l + 1 + m ==> IsAlnum(w[i]))
    && (o == 1 ==> IsLetter(w[|w| - 1]))
  }

  lemma ShapeAtText(s: string, p: nat, l: nat, m: nat, o: nat)
    requires ShapeAt(s, p, l, m, o)
    ensures ShapeText(s[p..p + l + 1 + m + o], l, m, o)
  {
    var e := p + l + 1 + m + o;
    var w := s[p..e];
    forall i | 0 <= i < |w|
      ensures w[i] == s[p + i]
    {
    }
  }

  /** Upper-casing the text of a shape gives the form of a code. */
  lemma UpperShapeText(w: string, l: nat, m: nat, o: nat)
    requires 2 <= l <= 3 && 3 <= m <= 4 && o <= 1 && ShapeText(w, l, m, o)
    ensures CodeFormAt(Upper(w), l)
  {
    var c := Upper(w);
    forall i | 0 <= i < l
      ensures IsUpper(c[i])
    {
      assert IsLetter(w[i]);
    }
    forall i | l < i < |c|
      ensures IsUpper(c[i]) || IsDigit(c[i])
    {
      if i < l + 1 + m {
        assert IsAlnum(w[i]);
      } else {
        assert IsLetter(w[|w| - 1]);
      }
    }
  }

  /** The upper-cased text of a shape match has the form of a code. */
  lemma ShapeGivesCodeForm(s: string, p: nat, l: nat, m: nat, o: nat)
    requires 2 <= l <= 3 && 3 <= m <= 4 && o <= 1 && ShapeAt(s, p, l, m, o)
    ensures CodeForm(Upper(s[p..p + l + 1 + m + o]))
  {
    ShapeAtText(s, p, l, m, o);
    UpperShapeText(s[p..p + l + 1 + m + o], l, m, o);
  }

  /** `detectCodePattern`: the first course code in the name, upper-cased. */
  function DetectCode(name: string): (r: Option<string>)
    ensures r.Some? ==> CodeForm(r.value)
    ensures r.None? <==> forall i :: 0 <= i <= |name| ==> CodeAt(name, i).None?
  {
    match FindCode(name, 0)
    case None => None
    case Some((p, sh)) =>
      FoundCodeForm(name, p, sh);
      Some(Upper(name[p..p + sh.0 + 1 + sh.1 + sh.2]))
  }

  lemma FoundCodeForm(name: string, p: nat, sh: (nat, nat, nat))
    requires FindCode(name, 0) == Some((p, sh))
    ensures p + sh.0 + 1 + sh.1 + sh.2 <= |name| && CodeForm(Upper(name[p..p + sh.0 + 1 + sh.1 + sh.2]))
  {
    ShapeGivesCodeForm(name, p, sh.0, sh.1, sh.2);
  }

  // ---------------------------------------------------------------- parseCode

  /** The first `ch` at or after `p`. */
  function IndexFrom(s: string, ch: char, p: nat): (r: Option<nat>)
    requires p <= |s|
    ensures r.Some? ==> p <= r.value < |s| && s[r.value] == ch && forall i :: p <= i < r.value ==> s[i] != ch
    ensures r.None? ==> forall i :: p <= i < |s| ==> s[i] != ch
    decreases |s| - p
  {
    if p == |s| then None
    else if s[p] == ch then Some(p)
    else IndexFrom(s, ch, p + 1)
  }

  /** The first `ch` in `s`, as `explode` finds its separator. */
  function IndexOf(s: string, ch: char): (r: Option<nat>)
    ensures r.Some? ==> r.value < |s| && s[r.value] == ch && forall i :: 0 <= i < r.value ==> s[i] != ch
    ensures r.None? <==> ch !in s
  {
    IndexFrom(s, ch, 0)
  }

  /** `parseCode`: the part after the first dash (up to any second dash) loses its last
      character, which becomes a third component. */
  function ParseCode(code: string, date: string): (r: Normalized)
    ensures r.date == date && |r.path| >= 2 && r.path[|r.path| - 1] == date
    ensures '-' in code ==> |r.path| == 4 && r.name == r.path[0] + "-" + r.path[1] + "-" + r.path[2]
    ensures '-' !in code ==> r.name == code && r.path == [code, date]
  {
    match IndexOf(code, '-')
    case None => Normalized(code, date, [code, date])
    case Some(d) =>
      var prefix := code[..d];
      var rest := code[d + 1..];
      var mid := match IndexOf(rest, '-') case None => rest case Some(d2) => rest[..d2];
      var cut := if |mid| == 0 then 0 else |mid| - 1;
      Normalized(prefix + "-" + mid[..cut] + "-" + mid[cut..], date, [prefix, mid[..cut], mid[cut..], date])
  }

  /** For a detected code the path is the letters before the dash, the middle, and the single
      last character; joining them back without the added dash gives the code. */
  lemma CodeParts(c: string, date: string, l: nat)
    requires CodeFormAt(c, l)
    ensures var r := ParseCode(c, date);
      r.path == [c[..l], c[l + 1..|c| - 1], c[|c| - 1..], date]
      && 2 <= |r.path[1]| <= 4 && |r.path[2]| == 1
      && r.path[0] + "-" + r.path[1] + r.path[2] == c
  {
    var rest := c[l + 1..];
    FirstDashOfCode(c, l);
    NoDashAfterCode(c, l);
    assert rest[..|rest| - 1] == c[l + 1..|c| - 1];
    assert rest[|rest| - 1..] == c[|c| - 1..];
    CodeRejoins(c, l);
  }

  lemma FirstDashOfCode(c: string, l: nat)
    requires CodeFormAt(c, l)
    ensures IndexOf(c, '-') == Some(l)
  {
    assert forall i :: 0 <= i < l ==> IsUpper(c[i]);
  }

  lemma NoDashAfterCode(c: string, l: nat)
    requires CodeFormAt(c, l)
    ensures IndexOf(c[l + 1..], '-') == None
  {
    var rest := c[l + 1..];
    forall i | 0 <= i < |rest|
      ensures rest[i] != '-'
    {
      assert rest[i] == c[l + 1 + i];
    }
  }

  lemma CodeRejoins(c: string, l: nat)
    requires l < |c| - 1 && c[l] == '-'
    ensures c[..l] + "-" + c[l + 1..|c| - 1] + c[|c| - 1..] == c
  {
    assert c[l..] == "-" + c[l + 1..];
    assert c[l + 1..] == c[l + 1..|c| - 1] + c[|c| - 1..];
    assert c == c[..l] + c[l..];
  }

  // ---------------------------------------------------------------- parseText

  /** `\bCURSO\s+([A-Z])\b` (case-insensitive) at `p`: the index of the captured letter. */
  function CursoAt(s: string, p: nat): (r: Option<nat>)
    requires p <= |s|
    ensures r.Some? ==> p + 5 < r.value < |s| && IsLetter(s[r.value])
  {
    if p + 5 <= |s| && Boundary(s, p) && Lower(s[p..p + 5]) == "curso" then
      var q := p + 5 + SpaceRunAt(s, p + 5);
      if q > p + 5 && q < |s| && IsLetter(s[q]) && Boundary(s, q + 1) then Some(q) else None
    else None
  }

  function FindCurso(s: string, p: nat): (r: Option<nat>)
    requires p <= |s|
    ensures r.Some? ==> r.value < |s| && IsLetter(s[r.value])
    decreases |s| - p
  {
    match CursoAt(s, p)
    case Some(q) => Some(q)
    case None => if p == |s| then None else FindCurso(s, p + 1)
  }

  /** Where a match of `\s*-\s*CURSO\s+[A-Z]\b` (case-insensitive) that starts at `p` ends. */
  function DashCursoAt(t: string, p: nat): (r: Option<nat>)
    requires p <= |t|
    ensures r.Some? ==> p < r.value <= |t|
  {
    var a := p + SpaceRunAt(t, p);
    if a < |t| && t[a] == '-' then
      var b := a + 1 + SpaceRunAt(t, a + 1);
      if b + 5 <= |t| && Lower(t[b..b + 5]) == "curso" then
        var c := b + 5 + SpaceRunAt(t, b + 5);
        if c > b + 5 && c < |t| && IsLetter(t[c]) && Boundary(t, c + 1) then Some(c + 1) else None
      else None
    else None
  }

  /** `preg_replace('/\s*-\s*CURSO\s+[A-Z]\b/i', '', ...)` on the text from `p`. */
  function RemoveDashCursoFrom(t: string, p: nat): string
    requires p <= |t|
    decreases |t| - p
  {
    if p == |t| then []
    else match DashCursoAt(t, p)
      case Some(e) => RemoveDashCursoFrom(t, e)
      case None => [t[p]] + RemoveDashCursoFrom(t, p + 1)
  }

  /** Only letters, digits and `\s` blanks. */
  predicate AlnumOrBlank(s: string) {
    forall i :: 0 <= i < |s| ==> IsAlnum(s[i]) || IsSpace(s[i])
  }

  /** `preg_replace('/[^A-Za-z0-9\s]/', '', ...)` on the text from `p`. */
  function KeepFrom(s: string, p: nat): (r: string)
    requires p <= |s|
    ensures AlnumOrBlank(r)
    decreases |s| - p
  {
    if p == |s| then []
    else (if IsAlnum(s[p]) || IsSpace(s[p]) then [s[p]] else []) + KeepFrom(s, p + 1)
  }

  function KeepChars(s: string): (r: string)
    ensures AlnumOrBlank(r)
  {
    KeepFrom(s, 0)
  }

  /** Every character kept comes from the text. */
  lemma {:induction false} KeptFromSource(s: string, p: nat, k: nat)
    requires p <= |s| && k < |KeepFrom(s, p)|
    ensures KeepFrom(s, p)[k] in s
    decreases |s| - p
  {
    if IsAlnum(s[p]) || IsSpace(s[p]) {
      if k == 0 {
        assert KeepFrom(s, p)[0] == s[p];
      } else {
        KeptFromSource(s, p + 1, k - 1);
      }
    } else {
      KeptFromSource(s, p + 1, k);
    }
  }

  /** Only letters, digits and `sep`. */
  predicate OnlyAlnumOr(s: string, sep: char) {
    forall i :: 0 <= i < |s| ==> IsAlnum(s[i]) || s[i] == sep
  }

  /** `sep` never appears twice in a row. */
  predicate NoDoubled(s: string, sep: char) {
    forall i :: 0 <= i && i + 1 < |s| ==> s[i] != sep || s[i + 1] != sep
  }

  lemma SliceAlnumOrBlank(s: string, a: nat, b: nat)
    requires a <= b <= |s| && AlnumOrBlank(s)
    ensures AlnumOrBlank(s[a..b])
  {
    forall i | 0 <= i < b - a
      ensures IsAlnum(s[a..b][i]) || IsSpace(s[a..b][i])
    {
      assert s[a..b][i] == s[a + i];
    }
  }

  lemma SliceKeepsForm(s: string, a: nat, w: string, sep: char)
    requires a + |w| <= |s| && w == s[a..a + |w|] && OnlyAlnumOr(s, sep) && NoDoubled(s, sep)
    ensures OnlyAlnumOr(w, sep) && NoDoubled(w, sep)
  {
    forall i | 0 <= i < |w|
      ensures w[i] == s[a + i]
    {
    }
  }

  /** `preg_replace('/\s+/', sep, ...)` on the text from `p`, made of letters, digits and
      blanks. */
  function CollapseFrom(s: string, p: nat, sep: char): (r: string)
    requires p <= |s| && AlnumOrBlank(s) && !IsAlnum(sep)
    ensures OnlyAlnumOr(r, sep) && NoDoubled(r, sep)
    ensures |r| == 0 <==> p == |s|
    ensures |r| > 0 ==> (r[0] == sep <==> IsSpace(s[p])) && (r[|r| - 1] == sep <==> IsSpace(s[|s| - 1]))
    decreases |s| - p
  {
    if p == |s| then []
    else if IsSpace(s[p]) then
      SpaceRunIsMaximal(s, p);
      [sep] + CollapseFrom(s, p + SpaceRunAt(s, p), sep)
    else [s[p]] + CollapseFrom(s, p + 1, sep)
  }

  /** Where the part `trim` keeps begins: it returns a contiguous part of its argument. */
  function TrimOffset(s: string): (i: nat)
    ensures i + |Trim(s)| <= |s| && Trim(s) == s[i..i + |Trim(s)|]
  {
    |s| - |TrimLeft(s)|
  }

  /** The base name of the "CURSO X" branch: the marker with its leading dash removed,
      trimmed, reduced to letters, digits and blanks, blanks collapsed to one space, trimmed. */
  function CursoBase(t: string): (base: string)
    ensures OnlyAlnumOr(base, ' ') && NoDoubled(base, ' ')
    ensures base == [] || (base[0] != ' ' && base[|base| - 1] != ' ')
  {
    var collapsed := CollapseFrom(KeepChars(Trim(RemoveDashCursoFrom(t, 0))), 0, ' ');
    TrimKeepsForm(collapsed, ' ');
    Trim(collapsed)
  }

  lemma TrimKeepsForm(s: string, sep: char)
    requires OnlyAlnumOr(s, sep) && NoDoubled(s, sep)
    ensures OnlyAlnumOr(Trim(s), sep) && NoDoubled(Trim(s), sep)
  {
    SliceKeepsForm(s, TrimOffset(s), Trim(s), sep);
  }

  /** The letters, digits and blanks of `t`, trimmed. */
  function TrimmedKept(t: string): (u: string)
    ensures AlnumOrBlank(u)
  {
    var kept := KeepChars(t);
    var i := TrimOffset(kept);
    SliceAlnumOrBlank(kept, i, i + |Trim(kept)|);
    Trim(kept)
  }

  /** The name of the fallback branch: letters, digits and blanks of the trimmed text,
      trimmed again, with each blank run turned into one dash. */
  function DashedName(t: string): (clean: string)
    ensures OnlyAlnumOr(clean, '-') && NoDoubled(clean, '-')
  {
    CollapseFrom(TrimmedKept(t), 0, '-')
  }

  /** Of the `\s` blanks, only the form feed survives `trim`. */
  lemma FormFeedIsTheOnlyKeptBlank(c: char)
    requires IsSpace(c) && !IsTrimmable(c)
    ensures c == '\U{000C}'
  {
  }

  /** A dash can only lead or trail the fallback name when the text holds a form feed,
      which `trim` keeps but `\s` matches. */
  lemma DashedNameEdges(t: string)
    ensures var clean := DashedName(t);
      clean != [] && (clean[0] == '-' || clean[|clean| - 1] == '-') ==> '\U{000C}' in t
  {
    var u := TrimmedKept(t);
    var clean := DashedName(t);
    if clean != [] && clean[0] == '-' {
      BlankAtTrimmedEdge(t, 0);
    } else if clean != [] && clean[|clean| - 1] == '-' {
      BlankAtTrimmedEdge(t, |u| - 1);
    }
  }

  /** A blank at either end of the trimmed letters, digits and blanks of `t` is a form feed
      taken from `t`. */
  lemma BlankAtTrimmedEdge(t: string, j: nat)
    requires var u := TrimmedKept(t); j < |u| && (j == 0 || j == |u| - 1) && IsSpace(u[j])
    ensures '\U{000C}' in t
  {
    var u := TrimmedKept(t);
    TrimmedKeptEnds(t);
    FormFeedIsTheOnlyKeptBlank(u[j]);
    TrimmedKeptFromSource(t, j);
  }

  lemma TrimmedKeptEnds(t: string)
    ensures var u := TrimmedKept(t); u == [] || (!IsTrimmable(u[0]) && !IsTrimmable(u[|u| - 1]))
  {
    assert TrimmedKept(t) == Trim(KeepChars(t));
  }

  /** Every character left after keeping and trimming comes from the text. */
  lemma TrimmedKeptFromSource(t: string, j: nat)
    requires j < |TrimmedKept(t)|
    ensures TrimmedKept(t)[j] in t
  {
    var kept := KeepFrom(t, 0);
    var u := TrimmedKept(t);
    assert u == Trim(kept);
    TrimAt(kept, j);
    var k := TrimOffset(kept) + j;
    KeptFromSource(t, 0, k);
    assert u[j] == kept[k];
  }

  lemma TrimAt(s: string, j: nat)
    requires j < |Trim(s)|
    ensures TrimOffset(s) + j < |s| && Trim(s)[j] == s[TrimOffset(s) + j]
  {
    var i := TrimOffset(s);
    assert Trim(s)[j] == s[i..i + |Trim(s)|][j];
  }

  /** `parseText`: a "CURSO X" marker gives the base name and the upper-cased letter;
      otherwise the dashed name alone. */
  function ParseText(name: string, date: string): (r: Normalized)
    ensures r.date == date && |r.path| >= 2 && r.path[|r.path| - 1] == date
    ensures |r.path| == 3 ==>
      r.name == r.path[0] + "-" + r.path[1]
      && OnlyAlnumOr(r.path[0], ' ') && NoDoubled(r.path[0], ' ')
      && (r.path[0] == [] || (r.path[0][0] != ' ' && r.path[0][|r.path[0]| - 1] != ' '))
      && |r.path[1]| == 1 && IsUpper(r.path[1][0])
    ensures |r.path| == 2 ==> r.path[0] == r.name && OnlyAlnumOr(r.name, '-') && NoDoubled(r.name, '-')
  {
    var t := Trim(name);
    match FindCurso(t, 0)
    case Some(q) =>
      var suffix := [UpperChar(t[q])];
      var base := CursoBase(t);
      Normalized(base + "-" + suffix, date, [base, suffix, date])
    case None =>
      var clean := DashedName(t);
      Normalized(clean, date, [clean, date])
  }

  /** The fallback name leads or trails with a dash only if the topic holds a form feed. */
  lemma TextNameEdges(name: string, date: string)
    ensures var r := ParseText(name, date);
      |r.path| == 2 && r.name != [] && (r.name[0] == '-' || r.name[|r.name| - 1] == '-')
      ==> '\U{000C}' in name
  {
    var t := Trim(name);
    if FindCurso(t, 0).None? {
      assert ParseText(name, date).name == DashedName(t);
      DashedNameEdges(t);
      if '\U{000C}' in t {
        TrimmedFrom(name, '\U{000C}');
      }
    }
  }

  /** `trim` only drops characters. */
  lemma TrimmedFrom(s: string, c: char)
    requires c in Trim(s)
    ensures c in s
  {
    var i := TrimOffset(s);
    assert c in s[i..i + |Trim(s)|];
  }

  /** A form feed at the start of a topic without a code survives `trim` and turns into a
      leading dash. */
  lemma FormFeedLeadsWithDash(date: string)
    ensures ParseText("\U{000C}ab", date).name == "-ab"
  {
    var t := "\U{000C}ab";
    assert TrimLeft(t) == t && TrimRight(t) == t;
    assert FindCurso(t, 3) == None;
    assert FindCurso(t, 2) == None;
    assert FindCurso(t, 1) == None;
    assert FindCurso(t, 0) == None;
    assert KeepFrom(t, 3) == [];
    assert KeepFrom(t, 2) == "b";
    assert KeepFrom(t, 1) == "ab";
    assert KeepFrom(t, 0) == t;
    assert SpaceRunAt(t, 1) == 0;
    assert SpaceRunAt(t, 0) == 1;
    assert CollapseFrom(t, 3, '-') == [];
    assert CollapseFrom(t, 2, '-') == "b";
    assert CollapseFrom(t, 1, '-') == "ab";
    assert CollapseFrom(t, 0, '-') == "-ab";
  }

  // ---------------------------------------------------------------- normalizeFileName

  /** `normalizeFileName`: brackets are stripped first; the date and the code are read from
      what remains; a code, when present, decides the result. */
  function NormalizeFileName(rawName: string, meetingTimestamp: int, formatYmd: int -> string): (r: Normalized)
    ensures |r.path| >= 2 && r.path[|r.path| - 1] == r.date
    ensures r.date == ExtractDate(RemoveBrackets(rawName), meetingTimestamp, formatYmd)
  {
    var cleanName := RemoveBrackets(rawName);
    var date := ExtractDate(cleanName, meetingTimestamp, formatYmd);
    match DetectCode(cleanName)
    case Some(code) => ParseCode(code, date)
    case None => ParseText(cleanName, date)
  }

  /** A code in the bracket-stripped name wins over any "CURSO" marker: the result is the
      code split into prefix, middle and last character. */
  lemma CodeTakesPrecedence(rawName: string, meetingTimestamp: int, formatYmd: int -> string)
    requires DetectCode(RemoveBrackets(rawName)).Some?
    ensures var r := NormalizeFileName(rawName, meetingTimestamp, formatYmd);
      var code := DetectCode(RemoveBrackets(rawName)).value;
      |r.path| == 4 && r.name == r.path[0] + "-" + r.path[1] + "-" + r.path[2]
      && r.path[0] + "-" + r.path[1] + r.path[2] == code && |r.path[2]| == 1
  {
    var code := DetectCode(RemoveBrackets(rawName)).value;
    var date := ExtractDate(RemoveBrackets(rawName), meetingTimestamp, formatYmd);
    if CodeFormAt(code, 2) {
      CodeParts(code, date, 2);
    } else {
      CodeParts(code, date, 3);
    }
  }

}
