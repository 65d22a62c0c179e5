/** String operations of the JavaScript runtime that the gallery relies on:
    `toLowerCase` (ASCII folding), `includes`, `indexOf`, `trim`, `join`, and the
    code-unit order used by the default `Array.prototype.sort`. */
module Text {
  import opened Optional

  // ---------------------------------------------------------------- case folding

  predicate IsAsciiUpper(c: char)
  {
    'A' <= c <= 'Z'
  }

  /** Lower-cases one ASCII letter and leaves every other character alone. */
  function LowerChar(c: char): (r: char)
    ensures !IsAsciiUpper(r)
    ensures !IsAsciiUpper(c) ==> r == c
  {
    if IsAsciiUpper(c) then (c as int + 32) as char else c
  }

  /** `s.toLowerCase()`, restricted to ASCII letters. */
  function ToLower(s: string): (r: string)
    ensures |r| == |s|
    ensures forall i :: 0 <= i < |s| ==> r[i] == LowerChar(s[i])
  {
    seq(|s|, i requires 0 <= i < |s| => LowerChar(s[i]))
  }

  /** Lower-casing is idempotent: the result holds no upper-case letter. */
  lemma ToLowerIdempotent(s: string)
    ensures ToLower(ToLower(s)) == ToLower(s)
    ensures forall i :: 0 <= i < |s| ==> !IsAsciiUpper(ToLower(s)[i])
  {
  }

  // ---------------------------------------------------------------- searching

  /** `needle` occurs in `hay` starting at index `i`. */
  predicate OccursAt(hay: string, needle: string, i: int)
  {
    0 <= i && i + |needle| <= |hay| && hay[i..i + |needle|] == needle
  }

  /** `hay.includes(needle)`: scans the start positions from left to right. */
  predicate Contains(hay: string, needle: string)
    decreases |hay|
  {
    needle <= hay || (hay != [] && Contains(hay[1..], needle))
  }

  /** `hay.indexOf(needle)`, `None` standing for -1. */
  function IndexOf(hay: string, needle: string): (r: Option<nat>)
    ensures r.Some? ==> OccursAt(hay, needle, r.value)
    ensures r.Some? ==> forall j :: 0 <= j < r.value ==> !OccursAt(hay, needle, j)
    ensures r.None? ==> forall j :: !OccursAt(hay, needle, j)
    decreases |hay|
  {
    if needle <= hay then Some(0)
    else if hay == [] then None
    else
      match IndexOf(hay[1..], needle)
      case None =>
        assert forall j :: OccursAt(hay, needle, j) ==> j == 0 || OccursAt(hay[1..], needle, j - 1);
        None
      case Some(i) =>
        assert forall j :: 0 < j <= i ==> (OccursAt(hay, needle, j) <==> OccursAt(hay[1..], needle, j - 1));
        Some(i + 1)
  }

  /** `includes` and `indexOf` agree, and both mean "occurs at some index". */
  lemma {:induction false} ContainsIffOccurs(hay: string, needle: string)
    ensures Contains(hay, needle) <==> IndexOf(hay, needle).Some?
    ensures Contains(hay, needle) <==> exists i :: OccursAt(hay, needle, i)
    decreases |hay|
  {
    if needle <= hay {
      assert OccursAt(hay, needle, 0);
    } else if hay != [] {
      ContainsIffOccurs(hay[1..], needle);
      if Contains(hay[1..], needle) {
        var i :| OccursAt(hay[1..], needle, i);
        assert OccursAt(hay, needle, i + 1);
      }
    }
  }

  /** Searching for a one-character string is membership. */
  lemma ContainsChar(s: string, c: char)
    ensures Contains(s, [c]) <==> c in s
  {
    ContainsIffOccurs(s, [c]);
    if c in s {
      var i :| 0 <= i < |s| && s[i] == c;
      assert OccursAt(s, [c], i);
    }
    if Contains(s, [c]) {
      var i :| OccursAt(s, [c], i);
      assert s[i..i + 1] == [c];
      assert s[i] == s[i..i + 1][0];
    }
  }

  /** The text before the first occurrence of `sep`: `s.split(sep)[0]`. */
  function BeforeFirst(s: string, sep: string): (r: string)
    requires sep != []
    ensures r <= s
    ensures !Contains(r, sep)
    ensures forall j :: 0 <= j < |r| ==> !OccursAt(s, sep, j)
    ensures r == s || OccursAt(s, sep, |r|)
  {
    match IndexOf(s, sep)
    case None =>
      ContainsIffOccurs(s, sep);
      s
    case Some(i) =>
      var r := s[..i];
      ContainsIffOccurs(r, sep);
      assert forall j :: OccursAt(r, sep, j) ==> OccursAt(s, sep, j);
      r
  }

  /** The text after the last occurrence of the character `c`: `s.split(c).pop()`. */
  function AfterLast(s: string, c: char): (r: string)
    ensures c !in r
    ensures |r| <= |s| && r == s[|s| - |r|..]
    ensures r == s || s[|s| - |r| - 1] == c
    decreases |s|
  {
    if s == [] then []
    else if s[|s| - 1] == c then []
    else
      var p := s[..|s| - 1];
      var r := AfterLast(p, c);
      assert s == p + [s[|s| - 1]];
      assert s[|s| - |r| - 1..] == p[|p| - |r|..] + [s[|s| - 1]];
      assert r != p ==> s[|s| - |r| - 2] == p[|p| - |r| - 1];
      r + [s[|s| - 1]]
  }

  // ---------------------------------------------------------------- trimming

  /** ECMAScript `WhiteSpace` and `LineTerminator` code points, which `trim` removes. */
  predicate IsWhiteSpace(c: char)
  {
    || c == '\t' || c == '\U{000B}' || c == '\U{000C}' || c == ' ' || c == '\U{00A0}' || c == '\U{FEFF}'
    || c == '\U{1680}' || ('\U{2000}' <= c <= '\U{200A}') || c == '\U{202F}' || c == '\U{205F}' || c == '\U{3000}'
    || c == '\n' || c == '\r' || c == '\U{2028}' || c == '\U{2029}'
  }

  function TrimStart(s: string): (r: string)
    ensures |r| <= |s| && r == s[|s| - |r|..]
    ensures r == [] || !IsWhiteSpace(r[0])
    ensures forall i :: 0 <= i < |s| - |r| ==> IsWhiteSpace(s[i])
    decreases |s|
  {
    if s != [] && IsWhiteSpace(s[0]) then TrimStart(s[1..]) else s
  }

  function TrimEnd(s: string): (r: string)
    ensures r <= s
    ensures r == [] || !IsWhiteSpace(r[|r| - 1])
    ensures forall i :: |r| <= i < |s| ==> IsWhiteSpace(s[i])
    decreases |s|
  {
    if s != [] && IsWhiteSpace(s[|s| - 1]) then TrimEnd(s[..|s| - 1]) else s
  }

  /** `s.trim()`. */
  function Trim(s: string): string
  {
    TrimEnd(TrimStart(s))
  }

  /** `s.trim() === ''` exactly when every character of `s` is white space. */
  lemma TrimEmptyIffBlank(s: string)
    ensures Trim(s) == [] <==> forall i :: 0 <= i < |s| ==> IsWhiteSpace(s[i])
  {
    var a := TrimStart(s);
    if Trim(s) == [] {
      assert a == [];
    }
  }

  // ---------------------------------------------------------------- joining

  /** `parts.join(sep)`. */
  function Join(parts: seq<string>, sep: string): (r: string)
    ensures parts != [] ==> parts[0] <= r
    ensures parts != [] ==> |parts[|parts| - 1]| <= |r| && r[|r| - |parts[|parts| - 1]|..] == parts[|parts| - 1]
    ensures |parts| == 1 ==> r == parts[0]
    decreases |parts|
  {
    if parts == [] then ""
    else if |parts| == 1 then parts[0]
    else
      var rest := Join(parts[1..], sep);
      var r := parts[0] + sep + rest;
      assert r[|r| - |rest|..] == rest;
      r
  }

  /** Total length of a list of strings. */
  function TotalLength(parts: seq<string>): nat
  {
    if parts == [] then 0 else |parts[0]| + TotalLength(parts[1..])
  }

  /** A join holds every part and one separator between each two neighbours. */
  lemma {:induction false} JoinLength(parts: seq<string>, sep: string)
    requires parts != []
    ensures |Join(parts, sep)| == TotalLength(parts) + |sep| * (|parts| - 1)
    decreases |parts|
  {
    if |parts| > 1 {
      JoinLength(parts[1..], sep);
    }
  }

  // ---------------------------------------------------------------- ordering

  /** The order of the default `sort()`: lexicographic by character code, a proper
      prefix coming first. */
  predicate LexLess(a: string, b: string)
    decreases |a|
  {
    if a == [] then b != []
    else if b == [] then false
    else if a[0] != b[0] then a[0] < b[0]
    else LexLess(a[1..], b[1..])
  }

  lemma {:induction false} LexLessIrreflexive(a: string)
    ensures !LexLess(a, a)
    decreases |a|
  {
    if a != [] {
      LexLessIrreflexive(a[1..]);
    }
  }

  lemma {:induction false} LexLessTransitive(a: string, b: string, c: string)
    requires LexLess(a, b) && LexLess(b, c)
    ensures LexLess(a, c)
    decreases |a|
  {
    if a != [] && b != [] && c != [] && a[0] == b[0] && b[0] == c[0] {
      LexLessTransitive(a[1..], b[1..], c[1..]);
    }
  }

  lemma {:induction false} LexLessTotal(a: string, b: string)
    requires a != b
    ensures LexLess(a, b) || LexLess(b, a)
    decreases |a|
  {
    if a != [] && b != [] && a[0] == b[0] {
      assert a == [a[0]] + a[1..] && b == [b[0]] + b[1..];
      LexLessTotal(a[1..], b[1..]);
    }
  }

  lemma {:induction false} LexLessAsymmetric(a: string, b: string)
    requires LexLess(a, b)
    ensures !LexLess(b, a)
    decreases |a|
  {
    if a != [] && b != [] && a[0] == b[0] {
      LexLessAsymmetric(a[1..], b[1..]);
    }
  }

  /** Strictly increasing in `LexLess`: sorted and free of duplicates. */
  ghost predicate StrictlyAscending(s: seq<string>)
  {
    forall i, j :: 0 <= i < j < |s| ==> LexLess(s[i], s[j])
  }

  /** Adds `x` to a strictly ascending list unless it is already there. */
  function InsertUnique(x: string, s: seq<string>): (r: seq<string>)
    requires StrictlyAscending(s)
    ensures StrictlyAscending(r)
    ensures forall t :: t in r <==> t == x || t in s
    ensures |r| > 0 && (r[0] == x || (s != [] && r[0] == s[0]))
    decreases |s|
  {
    if s == [] then [x]
    else if x == s[0] then s
    else if LexLess(x, s[0]) then
      assert forall j :: 0 < j < |s| ==> LexLess(x, s[j]) by {
        forall j | 0 < j < |s|
          ensures LexLess(x, s[j])
        {
          LexLessTransitive(x, s[0], s[j]);
        }
      }
      [x] + s
    else
      LexLessTotal(x, s[0]);
      var rest := InsertUnique(x, s[1..]);
      assert forall j :: 0 <= j < |rest| ==> LexLess(s[0], rest[j]) by {
        forall j | 0 <= j < |rest|
          ensures LexLess(s[0], rest[j])
        {
          if j > 0 {
            LexLessTransitive(s[0], rest[0], rest[j]);
          }
        }
      }
      assert s == [s[0]] + s[1..];
      [s[0]] + rest
  }

  /** `Array.from(new Set(xs)).sort()`: the distinct values of `xs` in ascending order. */
  function SortedDistinct(xs: seq<string>): (r: seq<string>)
    ensures StrictlyAscending(r)
    ensures forall t :: t in r <==> t in xs
    decreases |xs|
  {
    if xs == [] then []
    else InsertUnique(xs[0], SortedDistinct(xs[1..]))
  }

  /** A strictly ascending list is determined by its elements, so the sorted
      distinct list is the only such list. */
  lemma {:induction false} StrictlyAscendingUnique(a: seq<string>, b: seq<string>)
    requires StrictlyAscending(a) && StrictlyAscending(b)
    requires forall t :: t in a <==> t in b
    ensures a == b
    decreases |a|
  {
    assert a != [] ==> a[0] in a;
    assert b != [] ==> b[0] in b;
    if a != [] && b != [] {
      if a[0] != b[0] {
        assert a[0] in b && b[0] in a;
        var i :| 0 <= i < |b| && b[i] == a[0];
        var j :| 0 <= j < |a| && a[j] == b[0];
        assert LexLess(b[0], a[0]) && LexLess(a[0], b[0]);
        LexLessAsymmetric(a[0], b[0]);
      }
      forall t
        ensures t in a[1..] <==> t in b[1..]
      {
        if t in a[1..] {
          var i :| 1 <= i < |a| && a[i] == t;
          assert LexLess(a[0], t);
          LexLessIrreflexive(t);
          assert t != b[0] && t in b;
        }
        if t in b[1..] {
          var i :| 1 <= i < |b| && b[i] == t;
          assert LexLess(b[0], t);
          LexLessIrreflexive(t);
          assert t != a[0] && t in a;
        }
      }
      StrictlyAscendingUnique(a[1..], b[1..]);
      assert a == [a[0]] + a[1..] && b == [b[0]] + b[1..];
    }
  }
}
