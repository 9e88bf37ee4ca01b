/** Python `str` operations that the dashboard applies to cells:
    `strip`, `lower`, `split(",")`, `rstrip("/")`, substring search and
    the code-point order that `sorted` uses on strings. */
module Text {

  /** Python's `str.isspace`: the characters `str.strip()` removes. */
  predicate IsSpace(c: char) {
    || c == ' ' || c == '\t' || c == '\n' || c == '\r'
    || c == '\U{000B}' || c == '\U{000C}'
    || ('\U{001C}' <= c <= '\U{001F}')
    || c == '\U{0085}' || c == '\U{00A0}' || c == '\U{1680}'
    || ('\U{2000}' <= c <= '\U{200A}')
    || c == '\U{2028}' || c == '\U{2029}' || c == '\U{202F}' || c == '\U{205F}'
    || c == '\U{3000}'
  }

  function LowerChar(c: char): char {
    if 'A' <= c <= 'Z' then (c as int + 32) as char else c
  }

  /** `str.lower()` on the ASCII letters: no upper-case letter is left,
      each upper-case letter becomes the lower-case letter at the same
      place in the alphabet, and every other character stays. */
  function Lower(s: string): (r: string)
    ensures |r| == |s|
    ensures forall i :: 0 <= i < |r| ==> !('A' <= r[i] <= 'Z')
    ensures forall i :: 0 <= i < |s| && 'A' <= s[i] <= 'Z' ==>
              'a' <= r[i] <= 'z' && r[i] as int - 'a' as int == s[i] as int - 'A' as int
    ensures forall i :: 0 <= i < |s| && !('A' <= s[i] <= 'Z') ==> r[i] == s[i]
  {
    seq(|s|, i requires 0 <= i < |s| => LowerChar(s[i]))
  }

  lemma LowerIdempotent(s: string)
    ensures Lower(Lower(s)) == Lower(s)
  {
  }

  // ---------------------------------------------------------------------
  // strip

  function TrimStart(s: string): (r: string)
    ensures |r| <= |s| && r == s[|s| - |r|..]
    ensures r == [] || !IsSpace(r[0])
    ensures forall i :: 0 <= i < |s| - |r| ==> IsSpace(s[i])
  {
    if s != [] && IsSpace(s[0]) then TrimStart(s[1..]) else s
  }

  function TrimEnd(s: string): (r: string)
    ensures |r| <= |s| && r == s[..|r|]
    ensures r == [] || !IsSpace(r[|r| - 1])
    ensures forall i :: |r| <= i < |s| ==> IsSpace(s[i])
  {
    if s != [] && IsSpace(s[|s| - 1]) then TrimEnd(s[..|s| - 1]) else s
  }

  /** `str.strip()`: the longest infix of `s` that neither starts nor ends
      with whitespace; everything cut off on either side is whitespace. */
  function Strip(s: string): (r: string)
    ensures exists i, j ::
              && 0 <= i <= j <= |s| && r == s[i..j]
              && (forall k :: 0 <= k < i ==> IsSpace(s[k]))
              && (forall k :: j <= k < |s| ==> IsSpace(s[k]))
    ensures r == [] || (!IsSpace(r[0]) && !IsSpace(r[|r| - 1]))
  {
    var a := TrimStart(s);
    var r := TrimEnd(a);
    var i := |s| - |a|;
    assert r == s[i..i + |r|];
    r
  }

  lemma {:induction false} TrimStartNoLeadingSpace(s: string)
    requires s == [] || !IsSpace(s[0])
    ensures TrimStart(s) == s
  {
  }

  lemma {:induction false} TrimEndNoTrailingSpace(s: string)
    requires s == [] || !IsSpace(s[|s| - 1])
    ensures TrimEnd(s) == s
  {
  }

  /** Stripping twice is stripping once. */
  lemma StripIdempotent(s: string)
    ensures Strip(Strip(s)) == Strip(s)
  {
    var r := Strip(s);
    TrimStartNoLeadingSpace(r);
    TrimEndNoTrailingSpace(r);
  }

  // ---------------------------------------------------------------------
  // split / join on one separator character

  /** `s.split(sep)` for a one-character separator: always at least one
      piece, no piece holds the separator, and joining the pieces back
      with the separator gives `s` again. */
  function Split(s: string, sep: char): (r: seq<string>)
    ensures |r| >= 1
    ensures forall k :: 0 <= k < |r| ==> sep !in r[k]
    ensures forall k, ch :: 0 <= k < |r| && ch in r[k] ==> ch in s
  {
    if s == [] then [[]]
    else
      var rest := Split(s[1..], sep);
      assert forall ch :: ch in s[1..] ==> ch in s;
      if s[0] == sep then
        assert forall k :: 1 <= k < |rest| + 1 ==> ([[]] + rest)[k] == rest[k - 1];
        [[]] + rest
      else
        var r := [[s[0]] + rest[0]] + rest[1..];
        assert forall k :: 1 <= k < |r| ==> r[k] == rest[k];
        r
  }

  /** `sep.join(pieces)`. */
  function Join(pieces: seq<string>, sep: char): string
    requires |pieces| >= 1
  {
    if |pieces| == 1 then pieces[0]
    else pieces[0] + [sep] + Join(pieces[1..], sep)
  }

  lemma {:induction false} JoinSplit(s: string, sep: char)
    ensures Join(Split(s, sep), sep) == s
  {
    if s != [] {
      var rest := Split(s[1..], sep);
      JoinSplit(s[1..], sep);
      if s[0] != sep {
        var r := Split(s, sep);
        assert r[1..] == rest[1..];
        if |rest| == 1 {
        } else {
          assert rest[1..][1..] == rest[2..];
          calc {
            Join(r, sep);
            r[0] + [sep] + Join(rest[1..], sep);
            [s[0]] + rest[0] + [sep] + Join(rest[1..], sep);
            [s[0]] + (rest[0] + [sep] + Join(rest[1..], sep));
            [s[0]] + Join(rest, sep);
          }
        }
      }
    }
  }

  lemma {:induction false} SplitJoin(pieces: seq<string>, sep: char)
    requires |pieces| >= 1
    requires forall k :: 0 <= k < |pieces| ==> sep !in pieces[k]
    ensures Split(Join(pieces, sep), sep) == pieces
    decreases |pieces|, |pieces[0]|
  {
    var p := pieces[0];
    if p == [] {
      if |pieces| > 1 {
        SplitJoin(pieces[1..], sep);
        assert Join(pieces, sep) == [sep] + Join(pieces[1..], sep);
        assert ([sep] + Join(pieces[1..], sep))[1..] == Join(pieces[1..], sep);
      }
    } else {
      var tail := [p[1..]] + pieces[1..];
      assert tail[1..] == pieces[1..];
      SplitJoin(tail, sep);
      JoinFirstChar(pieces, sep);
      var s := Join(pieces, sep);
      assert s[1..] == Join(tail, sep);
      assert p[0] in p;
      SplitFirstChar(s, sep);
      assert [p[0]] + p[1..] == p;
    }
  }

  /** Splitting a string that starts with a non-separator glues that
      character onto the first piece. */
  lemma SplitFirstChar(s: string, sep: char)
    requires s != [] && s[0] != sep
    ensures Split(s, sep) == [[s[0]] + Split(s[1..], sep)[0]] + Split(s[1..], sep)[1..]
  {
  }

  /** Joining pieces whose first piece is non-empty starts with that
      piece's first character. */
  lemma JoinFirstChar(pieces: seq<string>, sep: char)
    requires |pieces| >= 1 && pieces[0] != []
    ensures Join(pieces, sep) == [pieces[0][0]] + Join([pieces[0][1..]] + pieces[1..], sep)
  {
    var p := pieces[0];
    var tail := [p[1..]] + pieces[1..];
    assert tail[1..] == pieces[1..];
    assert p == [p[0]] + p[1..];
    if |pieces| > 1 {
      assert Join(tail, sep) == p[1..] + [sep] + Join(pieces[1..], sep);
    }
  }

  // ---------------------------------------------------------------------
  // substring search

  predicate IsPrefix(p: string, s: string) {
    |p| <= |s| && s[..|p|] == p
  }

  /** `needle in hay`: some suffix of `hay` starts with `needle`. */
  function Contains(hay: string, needle: string): (b: bool)
    ensures b <==> exists i :: 0 <= i <= |hay| && IsPrefix(needle, hay[i..])
  {
    if IsPrefix(needle, hay) then
      assert hay[0..] == hay;
      true
    else if hay == [] then
      false
    else
      var b := Contains(hay[1..], needle);
      assert forall i :: 1 <= i <= |hay| ==> hay[i..] == hay[1..][i - 1..];
      if b then
        var i :| 0 <= i <= |hay| - 1 && IsPrefix(needle, hay[1..][i..]);
        assert hay[i + 1..] == hay[1..][i..];
        b
      else
        assert hay[0..] == hay;
        b
  }

  /** Case-insensitive containment, as a literal substring test. */
  predicate ContainsIgnoreCase(hay: string, needle: string) {
    Contains(Lower(hay), Lower(needle))
  }

  lemma InfixContained(s: string, i: int, j: int)
    requires 0 <= i <= j <= |s|
    ensures Contains(s, s[i..j])
  {
    assert IsPrefix(s[i..j], s[i..]);
  }

  /** Any infix of `s` is found case-insensitively in `s`. */
  lemma InfixContainedIgnoreCase(s: string, i: int, j: int)
    requires 0 <= i <= j <= |s|
    ensures ContainsIgnoreCase(s, s[i..j])
  {
    assert Lower(s[i..j]) == Lower(s)[i..j];
    InfixContained(Lower(s), i, j);
  }

  /** An infix of an infix is an infix. */
  lemma ContainsTransitive(c: string, b: string, a: string)
    requires Contains(c, b) && Contains(b, a)
    ensures Contains(c, a)
  {
    var i :| 0 <= i <= |c| && IsPrefix(b, c[i..]);
    var j :| 0 <= j <= |b| && IsPrefix(a, b[j..]);
    forall k | 0 <= k < |a| ensures c[i + j + k] == a[k] {
      assert c[i..][..|b|][j + k] == b[j + k];
      assert b[j..][..|a|][k] == a[k];
    }
    assert c[i + j..][..|a|] == a;
  }

  /** Lower-casing both sides keeps an infix an infix. */
  lemma ContainsLower(s: string, p: string)
    requires Contains(s, p)
    ensures ContainsIgnoreCase(s, p)
  {
    var i :| 0 <= i <= |s| && IsPrefix(p, s[i..]);
    assert Lower(s)[i..][..|p|] == Lower(p);
    assert IsPrefix(Lower(p), Lower(s)[i..]);
  }

  /** Each piece occurs in the joined string. */
  lemma {:induction false} JoinHasPiece(ps: seq<string>, sep: char, k: int)
    requires |ps| >= 1 && 0 <= k < |ps|
    ensures Contains(Join(ps, sep), ps[k])
  {
    var joined := Join(ps, sep);
    if k == 0 {
      assert IsPrefix(ps[0], joined[0..]);
    } else {
      JoinHasPiece(ps[1..], sep, k - 1);
      var rest := Join(ps[1..], sep);
      var i :| 0 <= i <= |rest| && IsPrefix(ps[k], rest[i..]);
      var off := |ps[0]| + 1;
      assert joined == ps[0] + [sep] + rest;
      assert joined[off + i..] == rest[i..];
      assert IsPrefix(ps[k], joined[off + i..]);
    }
  }

  /** Every piece of `s.split(sep)`, stripped or not, occurs in `s`. */
  lemma SplitPieceContained(s: string, sep: char, k: int)
    requires 0 <= k < |Split(s, sep)|
    ensures Contains(s, Split(s, sep)[k])
    ensures Contains(s, Strip(Split(s, sep)[k]))
  {
    var part := Split(s, sep)[k];
    JoinSplit(s, sep);
    JoinHasPiece(Split(s, sep), sep, k);
    var i, j :| 0 <= i <= j <= |part| && Strip(part) == part[i..j];
    InfixContained(part, i, j);
    ContainsTransitive(s, part, Strip(part));
  }

  // ---------------------------------------------------------------------
  // rstrip of one character

  /** `s.rstrip(c)`: drops every trailing `c`, nothing else. */
  function TrimTrailing(s: string, c: char): (r: string)
    ensures |r| <= |s| && r == s[..|r|]
    ensures r == [] || r[|r| - 1] != c
    ensures forall i :: |r| <= i < |s| ==> s[i] == c
  {
    if s != [] && s[|s| - 1] == c then TrimTrailing(s[..|s| - 1], c) else s
  }

  lemma {:induction false} TrimTrailingAppend(s: string, c: char)
    ensures TrimTrailing(s + [c], c) == TrimTrailing(s, c)
  {
    assert (s + [c])[..|s|] == s;
  }

  // ---------------------------------------------------------------------
  // code-point order used by Python's `sorted` on strings

  predicate LexLess(a: string, b: string) {
    if a == [] then b != []
    else if b == [] then false
    else if a[0] != b[0] then a[0] < b[0]
    else LexLess(a[1..], b[1..])
  }

  lemma {:induction false} LexLessIrreflexive(a: string)
    ensures !LexLess(a, a)
  {
    if a != [] { LexLessIrreflexive(a[1..]); }
  }

  lemma {:induction false} LexLessTransitive(a: string, b: string, c: string)
    requires LexLess(a, b) && LexLess(b, c)
    ensures LexLess(a, c)
  {
    if a != [] && b != [] && c != [] && a[0] == b[0] == c[0] {
      LexLessTransitive(a[1..], b[1..], c[1..]);
    }
  }

  lemma {:induction false} LexLessTotal(a: string, b: string)
    requires a != b
    ensures LexLess(a, b) || LexLess(b, a)
  {
    if a != [] && b != [] && a[0] == b[0] {
      assert a == [a[0]] + a[1..] && b == [b[0]] + b[1..];
      LexLessTotal(a[1..], b[1..]);
    }
  }
}
