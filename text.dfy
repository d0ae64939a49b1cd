/**
 * The JavaScript string built-ins that the catalogue's pages rely on, over Dafny
 * strings: global replace, `join`, `includes`, `trim`, `toLowerCase` and the
 * relational `<` on strings, plus `split`, used only to read a snippet back.
 * A Dafny `char` is a Unicode scalar value where JavaScript counts UTF-16 code
 * units; the two agree on text inside the Basic Multilingual Plane.
 */
module Text {

  /** `s.replace(/pat/g, rep)`: scan left to right, replace every non-overlapping occurrence. */
  function ReplaceAll(s: string, pat: string, rep: string): string
    requires |pat| > 0
    decreases |s|
  {
    if |s| == 0 then ""
    else if pat <= s then rep + ReplaceAll(s[|pat|..], pat, rep)
    else [s[0]] + ReplaceAll(s[1..], pat, rep)
  }

  /** A prefix in which the pattern cannot even start passes through unchanged. */
  lemma {:induction false} ReplaceAllNoStart(u: string, t: string, pat: string, rep: string)
    requires |pat| > 0 && pat[0] !in u
    ensures ReplaceAll(u + t, pat, rep) == u + ReplaceAll(t, pat, rep)
    decreases |u|
  {
    if |u| == 0 {
      assert u + t == t;
    } else {
      assert (u + t)[0] == u[0];
      assert !(pat <= u + t);
      assert (u + t)[1..] == u[1..] + t;
      ReplaceAllNoStart(u[1..], t, pat, rep);
      assert u == [u[0]] + u[1..];
    }
  }

  /** A chunk that does not begin a match, and in whose tail the pattern cannot start, passes through. */
  lemma ReplaceAllSkipChunk(u: string, t: string, pat: string, rep: string)
    requires |pat| > 0 && |u| > 0 && pat[0] !in u[1..] && !(pat <= u + t)
    ensures ReplaceAll(u + t, pat, rep) == u + ReplaceAll(t, pat, rep)
  {
    var s := u + t;
    assert s[1..] == u[1..] + t;
    ReplaceAllNoStart(u[1..], t, pat, rep);
    var r := ReplaceAll(t, pat, rep);
    assert ReplaceAll(s, pat, rep) == [u[0]] + ReplaceAll(s[1..], pat, rep);
    assert ReplaceAll(s[1..], pat, rep) == u[1..] + r;
    assert [u[0]] + (u[1..] + r) == ([u[0]] + u[1..]) + r;
    assert u == [u[0]] + u[1..];
  }

  /** A match at the front is replaced and scanning resumes after it. */
  lemma ReplaceAllAtMatch(t: string, pat: string, rep: string)
    requires |pat| > 0
    ensures ReplaceAll(pat + t, pat, rep) == rep + ReplaceAll(t, pat, rep)
  {
    assert pat <= pat + t;
    assert (pat + t)[|pat|..] == t;
  }

  /** `parts.join(sep)`. */
  function Join(parts: seq<string>, sep: string): string
  {
    if |parts| == 0 then ""
    else if |parts| == 1 then parts[0]
    else parts[0] + sep + Join(parts[1..], sep)
  }

  lemma {:induction false} JoinCons(x: string, xs: seq<string>, sep: string)
    requires |xs| > 0
    ensures Join([x] + xs, sep) == x + sep + Join(xs, sep)
  {
    assert ([x] + xs)[1..] == xs;
  }

  lemma {:induction false} JoinSnoc(xs: seq<string>, y: string, sep: string)
    requires |xs| > 0
    ensures Join(xs + [y], sep) == Join(xs, sep) + sep + y
  {
    if |xs| == 1 {
      assert xs + [y] == [xs[0], y];
    } else {
      JoinSnoc(xs[1..], y, sep);
      assert (xs + [y])[1..] == xs[1..] + [y];
    }
  }

  /** `s.split(sep)` for a one-character separator; like JavaScript, "" splits into [""]. */
  function Split(s: string, sep: char): (r: seq<string>)
    ensures |r| > 0
  {
    if |s| == 0 then [""]
    else
      var rest := Split(s[1..], sep);
      if s[0] == sep then [""] + rest else [[s[0]] + rest[0]] + rest[1..]
  }

  /** Splitting a piece that holds no separator, followed by a separator, peels that piece off. */
  lemma {:induction false} SplitPiece(w: string, t: string, sep: char)
    requires sep !in w
    ensures Split(w + [sep] + t, sep) == [w] + Split(t, sep)
    ensures Split(w, sep) == [w]
    decreases |w|
  {
    if |w| == 0 {
      assert w + [sep] + t == [sep] + t;
      assert ([sep] + t)[1..] == t;
    } else {
      assert (w + [sep] + t)[0] == w[0];
      assert (w + [sep] + t)[1..] == w[1..] + [sep] + t;
      SplitPiece(w[1..], t, sep);
      assert [w[0]] + w[1..] == w;
    }
  }

  /** Joining with a one-character separator that no part contains is undone by splitting on it. */
  lemma {:induction false} SplitJoin(parts: seq<string>, sep: char)
    requires |parts| > 0
    requires forall i :: 0 <= i < |parts| ==> sep !in parts[i]
    ensures Split(Join(parts, [sep]), sep) == parts
  {
    if |parts| == 1 {
      SplitPiece(parts[0], "", sep);
    } else {
      SplitJoin(parts[1..], sep);
      SplitPiece(parts[0], Join(parts[1..], [sep]), sep);
      assert parts == [parts[0]] + parts[1..];
    }
  }

  /** `h.includes(n)`. */
  predicate Contains(h: string, n: string)
    decreases |h|
  {
    n <= h || (|h| > 0 && Contains(h[1..], n))
  }

  /** The needle occupies positions `i .. i + |n|` of the haystack. */
  predicate OccursAt(h: string, n: string, i: int)
  {
    0 <= i <= |h| - |n| && h[i..i + |n|] == n
  }

  /** `includes` holds exactly when the needle occurs at some position of the haystack. */
  lemma {:induction false} ContainsAt(h: string, n: string)
    ensures Contains(h, n) <==> exists i :: OccursAt(h, n, i)
    decreases |h|
  {
    if |h| > 0 {
      ContainsAt(h[1..], n);
      if Contains(h[1..], n) {
        var i :| OccursAt(h[1..], n, i);
        assert h[i + 1..i + 1 + |n|] == h[1..][i..i + |n|];
        assert OccursAt(h, n, i + 1);
      }
      if n <= h {
        assert OccursAt(h, n, 0);
      }
      if exists i :: OccursAt(h, n, i) {
        var i :| OccursAt(h, n, i);
        if i > 0 {
          assert h[1..][i - 1..i - 1 + |n|] == h[i..i + |n|];
          assert OccursAt(h[1..], n, i - 1);
        } else {
          assert n <= h;
        }
      }
    } else {
      if n <= h {
        assert OccursAt(h, n, 0);
      }
      if exists i :: OccursAt(h, n, i) {
        var i :| OccursAt(h, n, i);
        assert n == [] && n <= h;
      }
    }
  }

  /** The characters `trim` removes: ECMAScript WhiteSpace and LineTerminator. */
  predicate IsSpace(c: char)
  {
    var u := c as int;
    || u == 0x09 || u == 0x0A || u == 0x0B || u == 0x0C || u == 0x0D || u == 0x20
    || u == 0xA0 || u == 0x1680 || (0x2000 <= u <= 0x200A) || u == 0x2028 || u == 0x2029
    || u == 0x202F || u == 0x205F || u == 0x3000 || u == 0xFEFF
  }

  /** How many white-space characters open the string. */
  function LeadingSpace(s: string): (n: nat)
    ensures n <= |s| && forall k :: 0 <= k < n ==> IsSpace(s[k])
    ensures n < |s| ==> !IsSpace(s[n])
    decreases |s|
  {
    if |s| > 0 && IsSpace(s[0]) then 1 + LeadingSpace(s[1..]) else 0
  }

  /** How many white-space characters close the string. */
  function TrailingSpace(s: string): (n: nat)
    ensures n <= |s| && forall k :: |s| - n <= k < |s| ==> IsSpace(s[k])
    ensures n < |s| ==> !IsSpace(s[|s| - n - 1])
    decreases |s|
  {
    if |s| > 0 && IsSpace(s[|s| - 1]) then 1 + TrailingSpace(s[..|s| - 1]) else 0
  }

  /** `s.trim()`: drop the leading white space, then the trailing white space. */
  function Trim(s: string): string
  {
    var t := s[LeadingSpace(s)..];
    t[..|t| - TrailingSpace(t)]
  }

  /**
   * `trim` returns a contiguous slice of its input, every character cut off on
   * either side is white space, and the result neither starts nor ends with white space.
   */
  lemma TrimIsSlice(s: string)
    ensures exists a, b :: 0 <= a <= b <= |s| && Trim(s) == s[a..b]
              && (forall k :: 0 <= k < a ==> IsSpace(s[k]))
              && (forall k :: b <= k < |s| ==> IsSpace(s[k]))
    ensures Trim(s) == "" || (!IsSpace(Trim(s)[0]) && !IsSpace(Trim(s)[|Trim(s)| - 1]))
  {
    var a := LeadingSpace(s);
    var t := s[a..];
    var b := a + |t| - TrailingSpace(t);
    assert Trim(s) == s[a..b];
    forall k | b <= k < |s| ensures IsSpace(s[k]) {
      assert s[k] == t[k - a];
    }
  }

  /** A string is blank after `trim` exactly when every character of it is white space. */
  lemma TrimBlank(s: string)
    ensures Trim(s) == "" <==> forall k :: 0 <= k < |s| ==> IsSpace(s[k])
  {
  }

  /** `toLowerCase` over the ASCII letters. */
  function LowerChar(c: char): char
  {
    if 'A' <= c <= 'Z' then (c as int + 32) as char else c
  }

  /** `s.toLowerCase()`: same length, each character lower-cased where it stands. */
  function Lower(s: string): (r: string)
    ensures |r| == |s|
  {
    seq(|s|, i requires 0 <= i < |s| => LowerChar(s[i]))
  }

  /** Lower-casing commutes with taking a slice. */
  lemma LowerSlice(s: string, a: int, b: int)
    requires 0 <= a <= b <= |s|
    ensures Lower(s)[a..b] == Lower(s[a..b])
  {
  }

  /** Lower-casing leaves no upper-case ASCII letter behind, so doing it twice changes nothing. */
  lemma LowerIdempotent(s: string)
    ensures forall i :: 0 <= i < |s| ==> !('A' <= Lower(s)[i] <= 'Z')
    ensures Lower(Lower(s)) == Lower(s)
  {
  }

  /** `a < b` on strings: lexicographic order by code unit, a proper prefix sorting first. */
  predicate Less(a: string, b: string)
    decreases |a|
  {
    if |a| == 0 then |b| > 0
    else if |b| == 0 then false
    else if a[0] != b[0] then a[0] < b[0]
    else Less(a[1..], b[1..])
  }

  lemma {:induction false} LessIrreflexive(a: string)
    ensures !Less(a, a)
    decreases |a|
  {
    if |a| > 0 { LessIrreflexive(a[1..]); }
  }

  lemma {:induction false} LessTransitive(a: string, b: string, c: string)
    requires Less(a, b) && Less(b, c)
    ensures Less(a, c)
    decreases |a|
  {
    if |a| > 0 && |b| > 0 && |c| > 0 && a[0] == b[0] && b[0] == c[0] {
      LessTransitive(a[1..], b[1..], c[1..]);
    }
  }

  /** Exactly one of `a < b`, `a == b`, `b < a` holds. */
  lemma {:induction false} LessTrichotomy(a: string, b: string)
    ensures a == b || Less(a, b) || Less(b, a)
    ensures !(Less(a, b) && Less(b, a))
    decreases |a|
  {
    if |a| > 0 && |b| > 0 && a[0] == b[0] {
      LessTrichotomy(a[1..], b[1..]);
      if a[1..] == b[1..] {
        assert a == [a[0]] + a[1..] && b == [b[0]] + b[1..];
      }
    }
  }
}

/** A JavaScript value that may be `undefined`. */
module Optional {
  datatype Option<T> = None | Some(value: T)
  {
    /** A default parameter or an `a || b` fallback on a missing value. */
    function GetOr(default: T): T
    {
      if this.Some? then value else default
    }
  }
}
