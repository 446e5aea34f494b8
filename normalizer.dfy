/**
 * Text normalisation of app.py (`norm_one`, `norm_series`): strip surrounding
 * whitespace, upper-case, decompose to NFKD and drop combining marks.
 *
 * The Unicode tables behind `str.isspace`, `str.upper`, `unicodedata.normalize`
 * and `unicodedata.combining` are not modelled: they reach the model as the
 * functions of a `TextOps` value supplied by the caller. Upper-casing and
 * decomposition are applied character by character; NFKD's canonical reordering
 * only permutes characters of nonzero combining class, which are removed right
 * afterwards, so it cannot change the normalised text.
 */
module Normalizer {
  import opened Wrappers

  /** The Unicode services the normaliser relies on. */
  datatype TextOps = TextOps(
    isSpace: char -> bool,      // str.isspace of one character, as used by str.strip()
    upper: char -> string,      // full upper-case mapping of one character (str.upper)
    decompose: char -> string,  // full compatibility decomposition of one character (NFKD)
    combining: char -> bool,    // unicodedata.combining(c) != 0
    fold: char -> char          // case folding used by case-insensitive regular expressions
  )

  /** A spreadsheet cell as pandas delivers it: missing (NaN), or a value shown as its `str`. */
  datatype Cell = Missing | Value(text: string)

  /** `fillna("").astype(str)`: a missing cell becomes the empty string. */
  function FillBlank(c: Cell): string
  {
    match c
    case Missing => ""
    case Value(s) => s
  }

  /** The cell as an optional string: a missing value is Python's `None`. */
  function AsOptional(c: Cell): Option<string>
  {
    match c
    case Missing => None
    case Value(s) => Some(s)
  }

  predicate AllSpace(u: TextOps, s: string)
  {
    forall i :: 0 <= i < |s| ==> u.isSpace(s[i])
  }

  /** Removes leading whitespace. */
  function TrimLeft(u: TextOps, s: string): string
  {
    if |s| > 0 && u.isSpace(s[0]) then TrimLeft(u, s[1..]) else s
  }

  /** Removes trailing whitespace. */
  function TrimRight(u: TextOps, s: string): string
  {
    if |s| > 0 && u.isSpace(s[|s| - 1]) then TrimRight(u, s[..|s| - 1]) else s
  }

  /** `TrimLeft` drops the longest all-whitespace prefix. */
  lemma {:induction false} TrimLeftSpec(u: TextOps, s: string)
    ensures |TrimLeft(u, s)| <= |s| && TrimLeft(u, s) == s[|s| - |TrimLeft(u, s)|..]
    ensures AllSpace(u, s[..|s| - |TrimLeft(u, s)|])
    ensures |TrimLeft(u, s)| > 0 ==> !u.isSpace(TrimLeft(u, s)[0])
  {
    if |s| > 0 && u.isSpace(s[0]) {
      TrimLeftSpec(u, s[1..]);
      var k := |s| - |TrimLeft(u, s)|;
      assert s[..k] == [s[0]] + s[1..][..k - 1];
    }
  }

  /** `TrimRight` drops the longest all-whitespace suffix. */
  lemma {:induction false} TrimRightSpec(u: TextOps, s: string)
    ensures |TrimRight(u, s)| <= |s| && TrimRight(u, s) == s[..|TrimRight(u, s)|]
    ensures AllSpace(u, s[|TrimRight(u, s)|..])
    ensures |TrimRight(u, s)| > 0 ==> !u.isSpace(TrimRight(u, s)[|TrimRight(u, s)| - 1])
  {
    if |s| > 0 && u.isSpace(s[|s| - 1]) {
      var n := |s| - 1;
      TrimRightSpec(u, s[..n]);
      var k := |TrimRight(u, s)|;
      assert s[k..] == s[..n][k..] + [s[n]];
    }
  }

  /** `str.strip()` with no argument. */
  function Strip(u: TextOps, s: string): (r: string)
    ensures |r| <= |s|
    ensures |r| > 0 ==> !u.isSpace(r[0]) && !u.isSpace(r[|r| - 1])
    ensures AllSpace(u, s) <==> r == ""
  {
    var l := TrimLeft(u, s);
    TrimLeftSpec(u, s);
    assert l == "" ==> AllSpace(u, s) by {
      if l == "" { assert s == s[..|s| - |l|]; }
    }
    var r := TrimRight(u, l);
    TrimRightSpec(u, l);
    r
  }

  /** `strip()` keeps a contiguous piece of the text, and only whitespace lies around it. */
  lemma StripSlice(u: TextOps, s: string)
    ensures exists i, j :: 0 <= i <= j <= |s| && Strip(u, s) == s[i..j] && AllSpace(u, s[..i]) && AllSpace(u, s[j..])
  {
    var l := TrimLeft(u, s);
    TrimLeftSpec(u, s);
    TrimRightSpec(u, l);
    var i := |s| - |l|;
    var j := i + |Strip(u, s)|;
    assert Strip(u, s) == s[i..j] && s[j..] == l[|Strip(u, s)|..];
  }

  /** Concatenates the strings `f` gives for the characters of `s`. */
  function FlatMap(f: char -> string, s: string): string
  {
    if s == [] then [] else f(s[0]) + FlatMap(f, s[1..])
  }

  /** Keeps the characters that are not combining marks. */
  function DropCombining(u: TextOps, s: string): (r: string)
    ensures |r| <= |s|
    ensures forall i :: 0 <= i < |r| ==> !u.combining(r[i])
    ensures forall c :: c in r <==> c in s && !u.combining(c)
  {
    if s == [] then []
    else if u.combining(s[0]) then DropCombining(u, s[1..])
    else [s[0]] + DropCombining(u, s[1..])
  }

  /** The normal form of a text value: stripped, upper-cased, decomposed, without combining marks. */
  function NormText(u: TextOps, s: string): (r: string)
    ensures forall i :: 0 <= i < |r| ==> !u.combining(r[i])
    ensures AllSpace(u, s) ==> r == ""
  {
    DropCombining(u, FlatMap(u.decompose, FlatMap(u.upper, Strip(u, s))))
  }

  /** `norm_one(txt)`: `None` (and the empty string) become `""`. */
  function NormOne(u: TextOps, txt: Option<string>): (r: string)
    ensures txt.None? || txt == Some("") ==> r == ""
    ensures forall i :: 0 <= i < |r| ==> !u.combining(r[i])
  {
    NormText(u, txt.GetOr(""))
  }

  /** `norm_series(x)`: missing values are filled with `""`, then each element is normalised. */
  function NormSeries(u: TextOps, xs: seq<Cell>): (r: seq<string>)
    ensures |r| == |xs|
    ensures forall i :: 0 <= i < |xs| ==> r[i] == NormOne(u, AsOptional(xs[i]))
  {
    seq(|xs|, i requires 0 <= i < |xs| => NormText(u, FillBlank(xs[i])))
  }

  /** The normal form contributed by one character of the stripped text. */
  function NormChar(u: TextOps, c: char): string
  {
    DropCombining(u, FlatMap(u.decompose, u.upper(c)))
  }

  /** The per-character normal forms of `s`, concatenated. */
  function NormChars(u: TextOps, s: string): string
  {
    if s == [] then [] else NormChar(u, s[0]) + NormChars(u, s[1..])
  }

  lemma {:induction false} FlatMapAppend(f: char -> string, a: string, b: string)
    ensures FlatMap(f, a + b) == FlatMap(f, a) + FlatMap(f, b)
  {
    if a != [] {
      assert (a + b)[1..] == a[1..] + b;
      FlatMapAppend(f, a[1..], b);
    } else {
      assert a + b == b;
    }
  }

  lemma {:induction false} DropCombiningAppend(u: TextOps, a: string, b: string)
    ensures DropCombining(u, a + b) == DropCombining(u, a) + DropCombining(u, b)
  {
    if a != [] {
      assert (a + b)[0] == a[0] && (a + b)[1..] == a[1..] + b;
      DropCombiningAppend(u, a[1..], b);
      var x, y := DropCombining(u, a[1..]), DropCombining(u, b);
      assert [a[0]] + (x + y) == ([a[0]] + x) + y;
    } else {
      assert a + b == b;
    }
  }

  /** Normalisation works character by character on the stripped text. */
  lemma {:induction false} NormTextCharwise(u: TextOps, s: string)
    ensures NormText(u, s) == NormChars(u, Strip(u, s))
  {
    PipelineCharwise(u, Strip(u, s));
  }

  lemma {:induction false} PipelineCharwise(u: TextOps, t: string)
    ensures DropCombining(u, FlatMap(u.decompose, FlatMap(u.upper, t))) == NormChars(u, t)
  {
    if t != [] {
      var up := u.upper(t[0]);
      var rest := FlatMap(u.upper, t[1..]);
      FlatMapAppend(u.decompose, up, rest);
      DropCombiningAppend(u, FlatMap(u.decompose, up), FlatMap(u.decompose, rest));
      PipelineCharwise(u, t[1..]);
    }
  }

  lemma {:induction false} NormCharsEquivalent(u: TextOps, a: string, b: string)
    requires |a| == |b|
    requires forall i :: 0 <= i < |a| ==> NormChar(u, a[i]) == NormChar(u, b[i])
    ensures NormChars(u, a) == NormChars(u, b)
  {
    if a != [] {
      NormCharsEquivalent(u, a[1..], b[1..]);
    }
  }

  /**
   * Accent and case insensitivity: two texts whose stripped forms agree character
   * by character after upper-casing, decomposing and dropping marks (as "Dirección"
   * and "DIRECCION" do) have the same normal form.
   */
  lemma NormTextEquivalent(u: TextOps, s: string, t: string)
    requires |Strip(u, s)| == |Strip(u, t)|
    requires forall i :: 0 <= i < |Strip(u, s)| ==> NormChar(u, Strip(u, s)[i]) == NormChar(u, Strip(u, t)[i])
    ensures NormText(u, s) == NormText(u, t)
  {
    NormTextCharwise(u, s);
    NormTextCharwise(u, t);
    NormCharsEquivalent(u, Strip(u, s), Strip(u, t));
  }

  lemma {:induction false} TrimLeftSpacePrefix(u: TextOps, p: string, t: string)
    requires AllSpace(u, p)
    ensures TrimLeft(u, p + t) == TrimLeft(u, t)
  {
    if p != [] {
      assert (p + t)[0] == p[0];
      assert (p + t)[1..] == p[1..] + t;
      TrimLeftSpacePrefix(u, p[1..], t);
    } else {
      assert p + t == t;
    }
  }

  lemma {:induction false} TrimLeftAppend(u: TextOps, s: string, q: string)
    requires !AllSpace(u, s)
    ensures TrimLeft(u, s + q) == TrimLeft(u, s) + q
  {
    assert s != [];
    assert (s + q)[0] == s[0];
    if u.isSpace(s[0]) {
      assert (s + q)[1..] == s[1..] + q;
      TrimLeftAppend(u, s[1..], q);
    }
  }

  lemma {:induction false} TrimRightSpaceSuffix(u: TextOps, t: string, q: string)
    requires AllSpace(u, q)
    ensures TrimRight(u, t + q) == TrimRight(u, t)
  {
    if q != [] {
      var n := |q| - 1;
      assert (t + q)[|t + q| - 1] == q[n];
      assert (t + q)[..|t + q| - 1] == t + q[..n];
      TrimRightSpaceSuffix(u, t, q[..n]);
    } else {
      assert t + q == t;
    }
  }

  /** `strip()` ignores whitespace added around a text. */
  lemma StripPadded(u: TextOps, p: string, s: string, q: string)
    requires AllSpace(u, p) && AllSpace(u, q)
    ensures Strip(u, p + s + q) == Strip(u, s)
  {
    assert p + s + q == p + (s + q);
    TrimLeftSpacePrefix(u, p, s + q);
    if AllSpace(u, s) {
      assert AllSpace(u, s + q);
    } else {
      TrimLeftAppend(u, s, q);
      TrimRightSpaceSuffix(u, TrimLeft(u, s), q);
    }
  }

  /** Whitespace around a value does not change its normal form ("direccion " and "direccion"). */
  lemma NormTextPadded(u: TextOps, p: string, s: string, q: string)
    requires AllSpace(u, p) && AllSpace(u, q)
    ensures NormText(u, p + s + q) == NormText(u, s)
  {
    StripPadded(u, p, s, q);
  }

  /** Stripping only removes characters: every character of the result occurs in the input. */
  lemma StripChars(u: TextOps, s: string)
    ensures forall c :: c in Strip(u, s) ==> c in s
  {
    TrimLeftSpec(u, s);
    TrimRightSpec(u, TrimLeft(u, s));
  }

  /** Stripping twice is stripping once. */
  lemma StripIdempotent(u: TextOps, s: string)
    ensures Strip(u, Strip(u, s)) == Strip(u, s)
  {
    var r := Strip(u, s);
    assert TrimLeft(u, r) == r;
  }

  /** `{norm_one(x) for x in labels}` */
  function NormSet(u: TextOps, labels: seq<string>): set<string>
  {
    if labels == [] then {} else {NormText(u, labels[0])} + NormSet(u, labels[1..])
  }

  lemma {:induction false} NormSetMembers(u: TextOps, labels: seq<string>)
    ensures forall n :: n in NormSet(u, labels) <==> exists a :: a in labels && NormText(u, a) == n
  {
    if labels != [] {
      NormSetMembers(u, labels[1..]);
      assert forall a :: a in labels <==> a == labels[0] || a in labels[1..];
    }
  }
}
