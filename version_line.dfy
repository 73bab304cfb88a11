/**
 * The version line of a game entry, `#v1.0.8下載（https://...）#`: after its
 * `#` runs are stripped, the regular expression `(v[^（]+)（(.+)）` picks a
 * label and a link out of it. The expression is modelled by a hand-written
 * search that follows the backtracking of JavaScript's engine, and is
 * proved against a declarative description of what the expression accepts
 * and which of the accepted matches the engine reports.
 */
module VersionLine {
  import opened Sequences
  import opened Strings

  /** A recognised version: group 1 (`ver`) and group 2 (`link`) of the match. */
  datatype Version = Version(ver: String, link: String)

  /** The characters `.` does not match when the `s` flag is absent. */
  predicate IsLineTerminator(c: char)
  {
    c == '\n' || c == '\r' || c == '\U{2028}' || c == '\U{2029}'
  }

  predicate IsFullWidthOpen(c: char)
  {
    c == '（'
  }

  /** `(v[^（]+)（(.+)）` matches s[i..k + 1], with group 1 = s[i..j] and
      group 2 = s[j + 1..k]. */
  predicate Accepts(s: String, i: int, j: int, k: int)
  {
    && 0 <= i && i + 1 < j && j + 1 < k < |s|
    && s[i] == 'v' && s[j] == '（' && s[k] == '）'
    && (forall t | i < t < j :: s[t] != '（')
    && (forall t | j < t < k :: !IsLineTerminator(s[t]))
  }

  /** Where a match lies: the `v` that starts it, the `（` that ends the
      label and the `）` that ends the link. */
  datatype Span = Span(start: nat, open: nat, close: nat)

  /** The match the engine reports: the leftmost start, and at that start
      the longest label and then the longest link (both quantifiers are
      greedy). */
  ghost predicate Preferred(s: String, m: Span)
  {
    && Accepts(s, m.start, m.open, m.close)
    && forall i, j, k | Accepts(s, i, j, k) ::
         m.start < i || (m.start == i && (j < m.open || (j == m.open && k <= m.close)))
  }

  /** The index of the last c in s[lo..hi], if any. */
  function LastIndexOf(s: String, c: char, lo: nat, hi: nat): (k: Option<nat>)
    requires lo <= hi <= |s|
    ensures k.Some? ==> lo <= k.value < hi && s[k.value] == c
    ensures k.Some? ==> forall t | k.value < t < hi :: s[t] != c
    ensures k.None? ==> forall t | lo <= t < hi :: s[t] != c
    decreases hi - lo
  {
    if lo == hi then None
    else if s[hi - 1] == c then Some(hi - 1)
    else LastIndexOf(s, c, lo, hi - 1)
  }

  /** The engine's attempt at start i. `[^（]+` runs up to the first `（`
      and cannot give it back, so the label ends there; `.+` runs up to the
      first line terminator and gives characters back until a `）` follows. */
  function MatchAt(s: String, i: nat): (m: Option<Span>)
    requires i < |s|
    ensures m.Some? ==> m.value.start == i < m.value.open < m.value.close < |s|
    ensures m.Some? ==> s[m.value.start] == 'v' && s[m.value.open] == '（' && s[m.value.close] == '）'
  {
    if s[i] != 'v' then None
    else
      var j := IndexWhere(s, i + 1, IsFullWidthOpen);
      if j == |s| || j == i + 1 then None
      else
        var end := IndexWhere(s, j + 1, IsLineTerminator);
        if end < j + 2 then None
        else
          match LastIndexOf(s, '）', j + 2, end)
          case None => None
          case Some(k) => Some(Span(i, j, k))
  }

  /** The attempt at start i succeeds exactly when the expression matches
      there, with the first `（` after i and the last `）` before the end of
      the line. */
  lemma MatchAtSpec(s: String, i: nat)
    requires i < |s|
    ensures MatchAt(s, i).Some? ==> Accepts(s, i, MatchAt(s, i).value.open, MatchAt(s, i).value.close)
    ensures MatchAt(s, i).Some? ==> forall j, k | Accepts(s, i, j, k) ::
                                      j == MatchAt(s, i).value.open && k <= MatchAt(s, i).value.close
    ensures MatchAt(s, i).None? ==> forall j, k :: !Accepts(s, i, j, k)
  {
    if s[i] == 'v' {
      var j := IndexWhere(s, i + 1, IsFullWidthOpen);
      if j < |s| && j != i + 1 {
        var end := IndexWhere(s, j + 1, IsLineTerminator);
        if end >= j + 2 {
          var k := LastIndexOf(s, '）', j + 2, end);
          assert MatchAt(s, i) == if k.Some? then Some(Span(i, j, k.value)) else None;
        }
      }
    }
  }

  /** The leftmost start at or after from where the engine succeeds. */
  function MatchFrom(s: String, from: nat): (m: Option<Span>)
    requires from <= |s|
    ensures m.Some? ==> from <= m.value.start < m.value.open < m.value.close < |s|
    ensures m.Some? ==> s[m.value.start] == 'v' && s[m.value.open] == '（' && s[m.value.close] == '）'
    decreases |s| - from
  {
    if from == |s| then None
    else
      match MatchAt(s, from)
      case Some(span) => Some(span)
      case None => MatchFrom(s, from + 1)
  }

  /** The search reports the leftmost start at which the expression
      matches, and nothing when it matches at no start from `from` on. */
  lemma {:induction false} MatchFromSpec(s: String, from: nat)
    requires from <= |s|
    ensures var m := MatchFrom(s, from);
            m.Some? ==> Accepts(s, m.value.start, m.value.open, m.value.close)
    ensures var m := MatchFrom(s, from);
            m.Some? ==> forall i, j, k | from <= i && Accepts(s, i, j, k) ::
                          m.value.start < i || (m.value.start == i && j == m.value.open && k <= m.value.close)
    ensures MatchFrom(s, from).None? ==> forall i, j, k | from <= i :: !Accepts(s, i, j, k)
    decreases |s| - from
  {
    if from < |s| {
      MatchAtSpec(s, from);
      if MatchAt(s, from).None? {
        MatchFromSpec(s, from + 1);
      }
    }
  }

  /** `s.match(/(v[^（]+)（(.+)）/)`: the match the engine reports, or None
      when the expression does not match anywhere in s. */
  function FindMatch(s: String): (m: Option<Span>)
    ensures m.Some? ==> m.value.start < m.value.open < m.value.close < |s|
    ensures m.Some? ==> s[m.value.start] == 'v' && s[m.value.open] == '（' && s[m.value.close] == '）'
  {
    MatchFrom(s, 0)
  }

  /** FindMatch reports the preferred match, and nothing exactly when the
      expression matches nowhere. */
  lemma FindMatchSpec(s: String)
    ensures FindMatch(s).Some? ==> Preferred(s, FindMatch(s).value)
    ensures FindMatch(s).None? <==> forall i, j, k :: !Accepts(s, i, j, k)
  {
    MatchFromSpec(s, 0);
  }

  /** At most one match is the reported one. */
  lemma PreferredUnique(s: String, a: Span, b: Span)
    requires Preferred(s, a) && Preferred(s, b)
    ensures a == b
  {
    assert Accepts(s, b.start, b.open, b.close);
    assert Accepts(s, a.start, a.open, a.close);
  }

  /** A well-formed version: the label starts with `v`, holds at least one
      more character and no `（`; the link is not empty and stays on one
      line. */
  predicate WellFormed(v: Version)
  {
    && |v.ver| >= 2 && v.ver[0] == 'v' && '（' !in v.ver
    && v.link != [] && forall c | c in v.link :: !IsLineTerminator(c)
  }

  /** Groups 1 and 2 of the reported match of the version pattern in a
      cleaned version line; None when the line does not match. */
  function MatchVersion(clean: String): (v: Option<Version>)
    ensures v.Some? ==> |v.value.ver| + |v.value.link| + 2 <= |clean|
  {
    match FindMatch(clean)
    case None => None
    case Some(m) => Some(Version(clean[m.start..m.open], clean[m.open + 1..m.close]))
  }

  /** The groups of an accepted match form a well-formed version. */
  lemma AcceptedWellFormed(s: String, i: nat, j: nat, k: nat)
    requires Accepts(s, i, j, k)
    ensures WellFormed(Version(s[i..j], s[j + 1..k]))
  {
    var v := Version(s[i..j], s[j + 1..k]);
    forall c | c in v.ver ensures c != '（' {
      var t :| 0 <= t < |v.ver| && v.ver[t] == c;
      assert c == s[i + t];
    }
    forall c | c in v.link ensures !IsLineTerminator(c) {
      var t :| 0 <= t < |v.link| && v.link[t] == c;
      assert c == s[j + 1 + t];
    }
  }

  /** MatchVersion agrees with the regular expression: it yields nothing
      exactly when the expression matches nowhere, and otherwise the two
      groups of the match the engine reports, which are well formed. */
  lemma MatchVersionSpec(clean: String)
    ensures MatchVersion(clean).None? <==> forall i, j, k :: !Accepts(clean, i, j, k)
    ensures MatchVersion(clean).Some? ==> WellFormed(MatchVersion(clean).value)
    ensures MatchVersion(clean).Some? ==>
              exists m | Preferred(clean, m) ::
                MatchVersion(clean).value == Version(clean[m.start..m.open], clean[m.open + 1..m.close])
  {
    FindMatchSpec(clean);
    if FindMatch(clean).Some? {
      var m := FindMatch(clean).value;
      assert Preferred(clean, m);
      AcceptedWellFormed(clean, m.start, m.open, m.close);
    }
  }

  /** Lines without a full-width `（`, such as those written with the
      half-width `(`, never yield a version. */
  lemma NoFullWidthNoVersion(clean: String)
    requires '（' !in clean
    ensures MatchVersion(clean) == None
  {
    MatchVersionSpec(clean);
  }

  /** A version written out as the documented line shows it: the label,
      then the link between full-width parentheses. */
  function Format(v: Version): String
  {
    v.ver + "（" + v.link + "）"
  }

  /** Reading a well-formed version back from its line gives the version
      itself. The link runs to the last `）` of the line, so a link that
      holds `（` or `）` itself comes back whole; it is not checked to be
      a URL. */
  lemma MatchVersionFormat(v: Version)
    requires WellFormed(v)
    ensures MatchVersion(Format(v)) == Some(v)
  {
    var s := Format(v);
    var open := |v.ver|;
    var close := |s| - 1;
    assert s[..open] == v.ver && s[open] == '（' && s[open + 1..close] == v.link && s[close] == '）';
    forall t | 0 < t < open ensures s[t] != '（' {
      assert s[t] == v.ver[t];
    }
    forall t | open < t < close ensures !IsLineTerminator(s[t]) {
      assert s[t] == v.link[t - open - 1];
    }
    assert Accepts(s, 0, open, close);
    FindMatchSpec(s);
    var m := FindMatch(s).value;
    assert m.start == 0;
    assert m.open == open;
    assert m.close == close;
  }

  /** The same line written with half-width parentheses yields nothing. */
  lemma HalfWidthExample()
    ensures MatchVersion("v1.0.8下載(https://ex.com/a)") == None
  {
    var s := "v1.0.8下載(https://ex.com/a)";
    assert forall t | 0 <= t < |s| :: s[t] != '（';
    NoFullWidthNoVersion(s);
  }
}
