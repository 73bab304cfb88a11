/**
 * The JavaScript string primitives the game-list parser is built from:
 * `trim`, `split` on one character, `startsWith`, global replacement of a
 * literal by the empty string, and the `#`-run stripping of version lines.
 * Strings are sequences of Unicode scalar values.
 */
module Strings {
  type String = seq<char>

  /** The code points String.prototype.trim removes: ECMAScript's
      WhiteSpace (tab, vertical tab, form feed, space, no-break space,
      byte-order mark and the Zs category) and LineTerminator productions. */
  predicate IsSpace(c: char)
  {
    || c == '\t' || c == '\n' || c == '\U{000B}' || c == '\U{000C}' || c == '\r'
    || c == ' ' || c == '\U{00A0}' || c == '\U{1680}'
    || ('\U{2000}' <= c <= '\U{200A}')
    || c == '\U{2028}' || c == '\U{2029}' || c == '\U{202F}' || c == '\U{205F}'
    || c == '\U{3000}' || c == '\U{FEFF}'
  }

  predicate IsHash(c: char)
  {
    c == '#'
  }

  /** String.prototype.startsWith: s is prefix followed by the rest of s. */
  predicate StartsWith(s: String, prefix: String): (b: bool)
    ensures b ==> |prefix| <= |s| && s == prefix + s[|prefix|..]
  {
    |prefix| <= |s| && s[..|prefix|] == prefix
  }

  /** Every text that is prefix followed by something starts with prefix. */
  lemma StartsWithAppend(prefix: String, t: String)
    ensures StartsWith(prefix + t, prefix)
  {
    assert (prefix + t)[..|prefix|] == prefix;
  }

  /** The length of the longest prefix of s made of `drop` characters. */
  function LeadingRun(s: String, drop: char -> bool): (i: nat)
    ensures i <= |s|
    ensures forall k | 0 <= k < i :: drop(s[k])
    ensures i == |s| || !drop(s[i])
  {
    IndexWhere(s, 0, c => !drop(c))
  }

  /** The start of the longest suffix of s[lo..] made of `drop` characters. */
  function TrailingRun(s: String, drop: char -> bool, lo: nat): (j: nat)
    requires lo <= |s|
    ensures lo <= j <= |s|
    ensures forall k | j <= k < |s| :: drop(s[k])
    ensures j == lo || !drop(s[j - 1])
    decreases |s| - lo
  {
    if lo < |s| && drop(s[|s| - 1]) then
      var j := TrailingRun(s[..|s| - 1], drop, lo);
      assert forall k | j <= k < |s| - 1 :: s[k] == s[..|s| - 1][k];
      j
    else |s|
  }

  /** The index of the first character at or after from that satisfies
      found, or |s| when there is none. */
  function IndexWhere(s: String, from: nat, found: char -> bool): (j: nat)
    requires from <= |s|
    ensures from <= j <= |s|
    ensures j < |s| ==> found(s[j])
    ensures forall t | from <= t < j :: !found(s[t])
    decreases |s| - from
  {
    if from == |s| || found(s[from]) then from else IndexWhere(s, from + 1, found)
  }

  /** s with the maximal runs of `drop` characters at both ends removed:
      what is left is the infix of s between those two runs. */
  function Strip(s: String, drop: char -> bool): (r: String)
    ensures r == [] || (!drop(r[0]) && !drop(r[|r| - 1]))
    ensures r == [] <==> forall k | 0 <= k < |s| :: drop(s[k])
    ensures var i := LeadingRun(s, drop);
            var j := TrailingRun(s, drop, i);
            && r == s[i..j]
            && (forall k | 0 <= k < i :: drop(s[k]))
            && (forall k | j <= k < |s| :: drop(s[k]))
  {
    var i := LeadingRun(s, drop);
    var j := TrailingRun(s, drop, i);
    assert i < j ==> s[i..j][0] == s[i] && s[i..j][j - i - 1] == s[j - 1];
    s[i..j]
  }

  /** Neither end of s is white space. */
  predicate IsTrimmed(s: String)
  {
    s == [] || (!IsSpace(s[0]) && !IsSpace(s[|s| - 1]))
  }

  /** String.prototype.trim. */
  function Trim(s: String): (r: String)
    ensures IsTrimmed(r)
    ensures r == [] <==> forall k | 0 <= k < |s| :: IsSpace(s[k])
    ensures var i := LeadingRun(s, IsSpace);
            var j := TrailingRun(s, IsSpace, i);
            && r == s[i..j]
            && (forall k | 0 <= k < i :: IsSpace(s[k]))
            && (forall k | j <= k < |s| :: IsSpace(s[k]))
    ensures forall c | c in r :: c in s
  {
    Strip(s, IsSpace)
  }

  /** `s.replace(/^#+|#+$/g, "")`: the leading run of `#` is removed, then
      the trailing run of what remains; `#` inside the text stays. */
  function StripHashes(s: String): (r: String)
    ensures r == [] || (r[0] != '#' && r[|r| - 1] != '#')
    ensures var i := LeadingRun(s, IsHash);
            var j := TrailingRun(s, IsHash, i);
            && r == s[i..j]
            && (forall k | 0 <= k < i :: s[k] == '#')
            && (forall k | j <= k < |s| :: s[k] == '#')
  {
    Strip(s, IsHash)
  }

  /** `s.split(sep)`: the pieces between the occurrences of sep, always at
      least one (the empty string splits into one empty piece). */
  function Split(s: String, sep: char): (pieces: seq<String>)
    ensures |pieces| >= 1
    decreases |s|
  {
    if s == [] then [[]]
    else
      var rest := Split(s[1..], sep);
      if s[0] == sep then [[]] + rest
      else [[s[0]] + rest[0]] + rest[1..]
  }

  /** `pieces.join(sep)`, the inverse of Split. */
  function Join(pieces: seq<String>, sep: char): String
    requires |pieces| >= 1
    decreases |pieces|
  {
    if |pieces| == 1 then pieces[0] else pieces[0] + [sep] + Join(pieces[1..], sep)
  }

  /** Splitting loses nothing: joining the pieces gives back the string. */
  lemma {:induction false} SplitThenJoin(s: String, sep: char)
    ensures Join(Split(s, sep), sep) == s
    decreases |s|
  {
    if s != [] {
      SplitThenJoin(s[1..], sep);
      var rest := Split(s[1..], sep);
      if s[0] == sep {
        assert Split(s, sep)[1..] == rest;
      } else {
        var ps := Split(s, sep);
        if |rest| == 1 {
          assert ps == [[s[0]] + rest[0]];
        } else {
          assert ps[1..] == rest[1..];
          assert Join(rest, sep) == rest[0] + [sep] + Join(rest[1..], sep);
          assert Join(ps, sep) == [s[0]] + rest[0] + [sep] + Join(rest[1..], sep);
        }
        assert s == [s[0]] + s[1..];
      }
    }
  }

  /** No piece holds the separator. */
  lemma {:induction false} SplitAvoidsSep(s: String, sep: char)
    ensures forall i | 0 <= i < |Split(s, sep)| :: sep !in Split(s, sep)[i]
    decreases |s|
  {
    if s != [] {
      SplitAvoidsSep(s[1..], sep);
      var rest := Split(s[1..], sep);
      if s[0] != sep {
        var pieces := Split(s, sep);
        assert pieces[0] == [s[0]] + rest[0];
        forall i | 0 < i < |pieces| ensures sep !in pieces[i] {
          assert pieces[i] == rest[i];
        }
      }
    }
  }

  /** A piece free of sep, followed by sep, starts a new piece. */
  lemma {:induction false} SplitAfterPiece(a: String, sep: char, t: String)
    requires sep !in a
    ensures Split(a + [sep] + t, sep) == [a] + Split(t, sep)
    decreases |a|
  {
    var s := a + [sep] + t;
    if a == [] {
      assert s[1..] == t;
    } else {
      assert s[1..] == a[1..] + [sep] + t;
      SplitAfterPiece(a[1..], sep, t);
      assert [a[0]] + a[1..] == a;
    }
  }

  /** Joining pieces free of sep and splitting again gives back the pieces. */
  lemma {:induction false} JoinThenSplit(pieces: seq<String>, sep: char)
    requires |pieces| >= 1
    requires forall p | p in pieces :: sep !in p
    ensures Split(Join(pieces, sep), sep) == pieces
    decreases |pieces|
  {
    if |pieces| == 1 {
      SplitWithoutSep(pieces[0], sep);
    } else {
      assert pieces[0] in pieces;
      assert forall p | p in pieces[1..] :: p in pieces;
      JoinThenSplit(pieces[1..], sep);
      SplitAfterPiece(pieces[0], sep, Join(pieces[1..], sep));
      assert [pieces[0]] + pieces[1..] == pieces;
    }
  }

  /** A string without the separator is one piece. */
  lemma {:induction false} SplitWithoutSep(s: String, sep: char)
    requires sep !in s
    ensures Split(s, sep) == [s]
    decreases |s|
  {
    if s != [] {
      SplitWithoutSep(s[1..], sep);
      assert [s[0]] + s[1..] == s;
    }
  }

  /** Splitting `a + sep + b` gives the pieces of a followed by those of b. */
  lemma {:induction false} SplitAppend(a: String, sep: char, b: String)
    ensures Split(a + [sep] + b, sep) == Split(a, sep) + Split(b, sep)
    decreases |a|
  {
    if a == [] {
      SplitCons(sep, b, sep);
      assert a + [sep] + b == [sep] + b;
    } else {
      var t := a[1..] + [sep] + b;
      assert a + [sep] + b == [a[0]] + t;
      assert a == [a[0]] + a[1..];
      SplitCons(a[0], t, sep);
      SplitCons(a[0], a[1..], sep);
      SplitAppend(a[1..], sep, b);
      ConsPieceAppend(a[0], sep, Split(a[1..], sep), Split(b, sep));
    }
  }

  /** Split unfolded once, on a string given as its first character and
      the rest. */
  lemma SplitCons(c: char, t: String, sep: char)
    ensures Split([c] + t, sep) ==
              if c == sep then [[]] + Split(t, sep)
              else [[c] + Split(t, sep)[0]] + Split(t, sep)[1..]
  {
    assert ([c] + t)[0] == c && ([c] + t)[1..] == t;
  }

  /** Adding a character to the first piece commutes with appending more
      pieces. */
  lemma ConsPieceAppend(c: char, sep: char, ra: seq<String>, rb: seq<String>)
    requires |ra| >= 1
    ensures (if c == sep then [[]] + (ra + rb) else [[c] + (ra + rb)[0]] + (ra + rb)[1..]) ==
            (if c == sep then [[]] + ra else [[c] + ra[0]] + ra[1..]) + rb
  {
    assert (ra + rb)[0] == ra[0];
    assert (ra + rb)[1..] == ra[1..] + rb;
  }

  /** A character of s other than sep lies in one of its pieces. */
  lemma {:induction false} SplitKeepsChar(s: String, sep: char, c: char)
    requires c in s && c != sep
    ensures exists p | p in Split(s, sep) :: c in p
    decreases |s|
  {
    var rest := Split(s[1..], sep);
    if s[0] == c {
      assert c in Split(s, sep)[0];
    } else {
      assert c in s[1..];
      SplitKeepsChar(s[1..], sep, c);
      var p :| p in rest && c in p;
      if s[0] == sep {
        assert p in Split(s, sep);
      } else if p == rest[0] {
        assert c in Split(s, sep)[0];
      } else {
        var k :| 0 <= k < |rest| && rest[k] == p;
        assert p == Split(s, sep)[k];
      }
    }
  }

  /** Every character of a piece is a character of s. */
  lemma {:induction false} SplitPieceChars(s: String, sep: char, p: String, c: char)
    requires p in Split(s, sep) && c in p
    ensures c in s
    decreases |s|
  {
    if s != [] {
      var rest := Split(s[1..], sep);
      if s[0] == sep {
        if p != [] {
          assert p in rest;
          SplitPieceChars(s[1..], sep, p, c);
        }
      } else if p == [s[0]] + rest[0] {
        if c != s[0] {
          assert c in rest[0];
          SplitPieceChars(s[1..], sep, rest[0], c);
        }
      } else {
        assert p in rest[1..];
        SplitPieceChars(s[1..], sep, p, c);
      }
    }
  }

  /** `pieces.map(p => p.trim()).filter(p => p)`: the trimmed pieces that
      are not empty, in their original order. */
  function TrimmedNonEmpty(pieces: seq<String>): (r: seq<String>)
    ensures |r| <= |pieces|
    ensures forall i | 0 <= i < |r| :: r[i] != [] && IsTrimmed(r[i])
    decreases |pieces|
  {
    if pieces == [] then []
    else
      var t := Trim(pieces[0]);
      (if t == [] then [] else [t]) + TrimmedNonEmpty(pieces[1..])
  }

  /** `s.split(sep).map(p => p.trim()).filter(p => p)`: the non-blank
      pieces between separators, trimmed. */
  function SplitTrimmed(s: String, sep: char): (r: seq<String>)
    ensures forall i | 0 <= i < |r| :: r[i] != [] && IsTrimmed(r[i]) && sep !in r[i]
  {
    var pieces := Split(s, sep);
    SplitAvoidsSep(s, sep);
    TrimmedNonEmptyAvoids(pieces, sep);
    TrimmedNonEmpty(pieces)
  }

  /** Every piece whose trimmed form is not empty is kept. */
  lemma {:induction false} TrimmedNonEmptyKeeps(pieces: seq<String>)
    ensures forall k | 0 <= k < |pieces| && Trim(pieces[k]) != [] :: Trim(pieces[k]) in TrimmedNonEmpty(pieces)
    decreases |pieces|
  {
    if pieces != [] {
      TrimmedNonEmptyKeeps(pieces[1..]);
      var r := TrimmedNonEmpty(pieces);
      var rest := TrimmedNonEmpty(pieces[1..]);
      var t := Trim(pieces[0]);
      assert r == (if t == [] then [] else [t]) + rest;
      forall k | 0 <= k < |pieces| && Trim(pieces[k]) != [] ensures Trim(pieces[k]) in r {
        if k > 0 {
          assert pieces[k] == pieces[1..][k - 1];
          assert Trim(pieces[k]) in rest;
        }
      }
    }
  }

  /** Every kept string is the trimmed form of one of the pieces. */
  lemma {:induction false} TrimmedNonEmptyFrom(pieces: seq<String>)
    ensures forall x | x in TrimmedNonEmpty(pieces) :: exists k | 0 <= k < |pieces| :: x == Trim(pieces[k])
    decreases |pieces|
  {
    if pieces != [] {
      TrimmedNonEmptyFrom(pieces[1..]);
      var rest := TrimmedNonEmpty(pieces[1..]);
      forall x | x in TrimmedNonEmpty(pieces) ensures exists k | 0 <= k < |pieces| :: x == Trim(pieces[k]) {
        if x in rest {
          var k :| 0 <= k < |pieces| - 1 && x == Trim(pieces[1..][k]);
          assert x == Trim(pieces[k + 1]);
        } else {
          assert x == Trim(pieces[0]);
        }
      }
    }
  }

  /** A character absent from every piece is absent from what is kept. */
  lemma {:induction false} TrimmedNonEmptyAvoids(pieces: seq<String>, c: char)
    requires forall k | 0 <= k < |pieces| :: c !in pieces[k]
    ensures forall i | 0 <= i < |TrimmedNonEmpty(pieces)| :: c !in TrimmedNonEmpty(pieces)[i]
    decreases |pieces|
  {
    if pieces != [] {
      forall k | 0 <= k < |pieces| - 1 ensures c !in pieces[1..][k] {
        assert pieces[1..][k] == pieces[k + 1];
      }
      TrimmedNonEmptyAvoids(pieces[1..], c);
    }
  }

  /** Splitting s, trimming and filtering leaves nothing exactly when s
      holds only white space and separators. */
  lemma SplitTrimmedEmpty(s: String, sep: char)
    ensures SplitTrimmed(s, sep) == [] <==>
              forall k | 0 <= k < |s| :: IsSpace(s[k]) || s[k] == sep
  {
    var pieces := Split(s, sep);
    if forall k | 0 <= k < |s| :: IsSpace(s[k]) || s[k] == sep {
      SplitAvoidsSep(s, sep);
      forall p | p in pieces ensures Trim(p) == [] {
        var n :| 0 <= n < |pieces| && pieces[n] == p;
        forall k | 0 <= k < |p| ensures IsSpace(p[k]) {
          assert p[k] in p;
          SplitPieceChars(s, sep, p, p[k]);
          assert sep !in pieces[n];
        }
      }
      TrimmedNonEmptyFrom(pieces);
      if TrimmedNonEmpty(pieces) != [] {
        assert TrimmedNonEmpty(pieces)[0] in TrimmedNonEmpty(pieces);
      }
    } else {
      var k :| 0 <= k < |s| && !IsSpace(s[k]) && s[k] != sep;
      SplitKeepsChar(s, sep, s[k]);
      var p :| p in pieces && s[k] in p;
      var n :| 0 <= n < |pieces| && pieces[n] == p;
      assert Trim(p) != [];
      TrimmedNonEmptyKeeps(pieces);
    }
  }

  /** Trimming and filtering works piece by piece, so it keeps order. */
  lemma {:induction false} TrimmedNonEmptyAppend(a: seq<String>, b: seq<String>)
    ensures TrimmedNonEmpty(a + b) == TrimmedNonEmpty(a) + TrimmedNonEmpty(b)
    decreases |a|
  {
    if a != [] {
      var t := Trim(a[0]);
      var head: seq<String> := if t == [] then [] else [t];
      assert (a + b)[0] == a[0];
      assert (a + b)[1..] == a[1..] + b;
      assert TrimmedNonEmpty(a + b) == head + TrimmedNonEmpty(a[1..] + b);
      TrimmedNonEmptyAppend(a[1..], b);
      assert TrimmedNonEmpty(a) == head + TrimmedNonEmpty(a[1..]);
    } else {
      assert a + b == b;
    }
  }

  /** `s.replace(new RegExp(pat, "g"), "")` for a literal pat: occurrences
      are found left to right, each search resuming after the previous
      occurrence, and deleted. */
  function RemoveAll(s: String, pat: String): (r: String)
    requires pat != []
    ensures |r| <= |s|
    decreases |s|
  {
    if |s| < |pat| then s
    else if s[..|pat|] == pat then RemoveAll(s[|pat|..], pat)
    else [s[0]] + RemoveAll(s[1..], pat)
  }

  /** s with every c deleted. */
  function Without(s: String, c: char): String
  {
    if s == [] then [] else (if s[0] == c then [] else [s[0]]) + Without(s[1..], c)
  }

  lemma {:induction false} WithoutAppend(a: String, b: String, c: char)
    ensures Without(a + b, c) == Without(a, c) + Without(b, c)
    decreases |a|
  {
    if a != [] {
      assert (a + b)[0] == a[0];
      assert (a + b)[1..] == a[1..] + b;
      WithoutAppend(a[1..], b, c);
    } else {
      assert a + b == b;
    }
  }

  lemma {:induction false} WithoutAll(s: String, c: char)
    requires forall k | 0 <= k < |s| :: s[k] == c
    ensures Without(s, c) == []
    decreases |s|
  {
    if s != [] {
      WithoutAll(s[1..], c);
    }
  }

  /** Deleting occurrences of a pattern made only of c deletes only c
      characters: every other character survives, in order. */
  lemma {:induction false} RemoveAllKeepsOtherText(s: String, pat: String, c: char)
    requires pat != []
    requires forall k | 0 <= k < |pat| :: pat[k] == c
    ensures Without(RemoveAll(s, pat), c) == Without(s, c)
    decreases |s|
  {
    if |s| < |pat| {
    } else if s[..|pat|] == pat {
      RemoveAllKeepsOtherText(s[|pat|..], pat, c);
      assert s == pat + s[|pat|..];
      WithoutAppend(pat, s[|pat|..], c);
      WithoutAll(pat, c);
    } else {
      RemoveAllKeepsOtherText(s[1..], pat, c);
      WithoutAppend([s[0]], RemoveAll(s[1..], pat), c);
    }
  }

  /** A leading occurrence of the pattern is deleted. */
  lemma RemoveAllLeading(pat: String, t: String)
    requires pat != []
    ensures RemoveAll(pat + t, pat) == RemoveAll(t, pat)
  {
    assert (pat + t)[..|pat|] == pat;
    assert (pat + t)[|pat|..] == t;
  }

  /** Text that cannot start the pattern is kept as it is. */
  lemma {:induction false} RemoveAllFreePrefix(s: String, t: String, pat: String)
    requires pat != [] && pat[0] !in s
    ensures RemoveAll(s + t, pat) == s + RemoveAll(t, pat)
    decreases |s|
  {
    if s == [] {
      assert s + t == t;
    } else {
      var u := s + t;
      if |u| < |pat| {
        assert RemoveAll(t, pat) == t;
      } else {
        assert u[..|pat|][0] == s[0];
        assert u[1..] == s[1..] + t;
        assert RemoveAll(u, pat) == [s[0]] + RemoveAll(s[1..] + t, pat);
        RemoveAllFreePrefix(s[1..], t, pat);
        assert s == [s[0]] + s[1..];
      }
    }
  }

  /** n copies of c. */
  function Rep(c: char, n: nat): (r: String)
    ensures |r| == n
    ensures forall k | 0 <= k < n :: r[k] == c
  {
    if n == 0 then [] else [c] + Rep(c, n - 1)
  }

  /** A run of n copies of c followed by text that does not start with c
      loses its occurrences of the m-character pattern from the left,
      without overlap: n % m copies of c are left, then the rest of the
      text is scanned on its own. With RemoveAllFreePrefix this fixes the
      result on every text, e.g. `"####x"` gives `"#x"` for `###`. */
  lemma {:induction false} RemoveAllRun(c: char, n: nat, m: nat, t: String)
    requires m >= 1
    requires t == [] || t[0] != c
    ensures RemoveAll(Rep(c, n) + t, Rep(c, m)) == Rep(c, n % m) + RemoveAll(t, Rep(c, m))
    decreases n
  {
    var pat := Rep(c, m);
    if n < m {
      RemoveAllShortRun(c, n, m, t);
      ModSmall(n, m);
    } else {
      var k := n - m;
      RemoveAllLeadingRun(c, m, k, t);
      assert RemoveAll(Rep(c, n) + t, pat) == RemoveAll(Rep(c, k) + t, pat);
      RemoveAllRun(c, k, m, t);
      ModSub(n, m);
      assert k % m == n % m;
    }
  }

  lemma ModSmall(n: nat, m: nat)
    requires n < m
    ensures n % m == n
  {
  }

  lemma ModSub(n: nat, m: nat)
    requires 1 <= m <= n
    ensures (n - m) % m == n % m
  {
    var q := (n - m) / m;
    var r := (n - m) % m;
    MulSucc(q, m);
    ModUnique(n, m, q + 1, r);
  }

  lemma MulSucc(q: int, m: int)
    ensures (q + 1) * m == q * m + m
  {
  }

  lemma {:induction false} MulMono(a: nat, b: nat, m: nat)
    requires a <= b
    ensures a * m <= b * m
    decreases b - a
  {
    if a < b {
      MulSucc(a, m);
      MulMono(a + 1, b, m);
    }
  }

  lemma ModUnique(n: nat, m: nat, q: nat, r: nat)
    requires 1 <= m && r < m && n == q * m + r
    ensures n % m == r
  {
    var q' := n / m;
    if q' < q {
      MulMono(q' + 1, q, m);
      MulSucc(q', m);
    } else if q' > q {
      MulMono(q + 1, q', m);
      MulSucc(q, m);
    }
  }

  /** m + k copies of c start with one occurrence of the m-copy pattern,
      which is deleted. */
  lemma RemoveAllLeadingRun(c: char, m: nat, k: nat, t: String)
    requires m >= 1
    ensures RemoveAll(Rep(c, m + k) + t, Rep(c, m)) == RemoveAll(Rep(c, k) + t, Rep(c, m))
  {
    var pat := Rep(c, m);
    RepAppend(c, m, k);
    assert Rep(c, m + k) + t == pat + (Rep(c, k) + t);
    RemoveAllLeading(pat, Rep(c, k) + t);
  }

  lemma RepAppend(c: char, a: nat, b: nat)
    ensures Rep(c, a + b) == Rep(c, a) + Rep(c, b)
  {
    assert forall k | 0 <= k < a + b :: Rep(c, a + b)[k] == (Rep(c, a) + Rep(c, b))[k];
  }

  /** Fewer than m copies of c before text that does not start with c
      cannot hold the pattern: they are kept. */
  lemma {:induction false} RemoveAllShortRun(c: char, n: nat, m: nat, t: String)
    requires n < m
    requires t == [] || t[0] != c
    ensures RemoveAll(Rep(c, n) + t, Rep(c, m)) == Rep(c, n) + RemoveAll(t, Rep(c, m))
    decreases n
  {
    if n == 0 {
      assert Rep(c, n) + t == t;
    } else {
      var pat, rest := Rep(c, m), Rep(c, n - 1);
      var removed := RemoveAll(t, pat);
      calc {
        RemoveAll(Rep(c, n) + t, pat);
        { RemoveAllShortRunStep(c, n, m, t); }
        [c] + RemoveAll(rest + t, pat);
        { RemoveAllShortRun(c, n - 1, m, t); }
        [c] + (rest + removed);
        ([c] + rest) + removed;
        Rep(c, n) + removed;
      }
    }
  }

  /** The first c of a short run cannot start the pattern: it is kept. */
  lemma RemoveAllShortRunStep(c: char, n: nat, m: nat, t: String)
    requires 0 < n < m
    requires t == [] || t[0] != c
    ensures RemoveAll(Rep(c, n) + t, Rep(c, m)) == [c] + RemoveAll(Rep(c, n - 1) + t, Rep(c, m))
  {
    var pat := Rep(c, m);
    var s := Rep(c, n) + t;
    var u := Rep(c, n - 1) + t;
    assert Rep(c, n) == [c] + Rep(c, n - 1);
    assert s == [c] + u;
    if |s| < m {
      assert RemoveAll(u, pat) == u;
    } else {
      assert s[..m][n] == t[0];
      assert s[..m] != pat;
    }
  }
}
