/** The one text rewrite the skill manager performs: Python's
    `re.sub(r'^description:\s*.*$', 'description: ' + value, text, count=1, flags=re.MULTILINE)`.

    With MULTILINE, `^` holds at index 0 and right after every '\n', and `$` holds
    before every '\n' and at the end. `\s` (a str pattern) is Python's whitespace set,
    which contains '\n'; `.` is any character but '\n'. The match starting at a line
    that begins with `description:` therefore always succeeds without backtracking:
    the key, then the longest run of whitespace (which may cross line breaks), then
    the rest of the line that run stops on. */
module DescriptionLine {

  datatype Option<T> = None | Some(value: T)

  const Key := "description:"

  /** What the matched text is replaced with, before the value. */
  const Replacement := Key + " "

  /** Characters for which Python's `str.isspace()` holds, which `\s` matches. */
  predicate IsSpace(c: char) {
    || '\t' <= c <= '\r'
    || '\U{1C}' <= c <= '\U{1F}'
    || c == ' ' || c == '\U{85}' || c == '\U{A0}' || c == '\U{1680}'
    || '\U{2000}' <= c <= '\U{200A}'
    || c == '\U{2028}' || c == '\U{2029}' || c == '\U{202F}' || c == '\U{205F}' || c == '\U{3000}'
  }

  /** Where `^` holds under MULTILINE. */
  predicate LineStart(s: string, i: nat)
    requires i <= |s|
  {
    i == 0 || s[i - 1] == '\n'
  }

  /** A line of `s` begins at `i` with `description:`. */
  predicate KeyAt(s: string, i: nat) {
    i <= |s| && LineStart(s, i) && Key <= s[i..]
  }

  /** End of the greedy `\s*` started at `k`. */
  function SpaceEnd(s: string, k: nat): (e: nat)
    requires k <= |s|
    ensures k <= e <= |s|
    ensures forall j :: k <= j < e ==> IsSpace(s[j])
    ensures e == |s| || !IsSpace(s[e])
    decreases |s| - k
  {
    if k < |s| && IsSpace(s[k]) then SpaceEnd(s, k + 1) else k
  }

  /** End of the greedy `.*` started at `k`: the next '\n' or the end of the text. */
  function LineEnd(s: string, k: nat): (e: nat)
    requires k <= |s|
    ensures k <= e <= |s|
    ensures forall j :: k <= j < e ==> s[j] != '\n'
    ensures e == |s| || s[e] == '\n'
    decreases |s| - k
  {
    if k < |s| && s[k] != '\n' then LineEnd(s, k + 1) else k
  }

  /** The leftmost match, at or after `from`. */
  function FindKey(s: string, from: nat): (r: Option<nat>)
    requires from <= |s|
    ensures r.Some? ==> from <= r.value <= |s| && KeyAt(s, r.value)
    ensures r.Some? ==> forall i :: from <= i < r.value ==> !KeyAt(s, i)
    ensures r.None? ==> forall i :: from <= i ==> !KeyAt(s, i)
    decreases |s| - from
  {
    if KeyAt(s, from) then Some(from)
    else if from == |s| then None
    else FindKey(s, from + 1)
  }

  /** End of the match that starts at `i`. */
  function MatchEnd(s: string, i: nat): (j: nat)
    requires KeyAt(s, i)
    ensures i + |Key| <= j <= |s|
    ensures j == |s| || s[j] == '\n'
  {
    LineEnd(s, SpaceEnd(s, i + |Key|))
  }

  /** The text after the substitution, with `value` already rendered by the f-string. */
  function Rewrite(s: string, value: string): string {
    match FindKey(s, 0)
    case None => s
    case Some(i) => s[..i] + Replacement + value + s[MatchEnd(s, i)..]
  }

  /** Uniqueness of the greedy `.*` end: any run of non-newlines that stops at a newline
      or at the end is the one `LineEnd` finds. */
  lemma {:induction false} LineEndIs(s: string, k: nat, e: nat)
    requires k <= e <= |s|
    requires forall j :: k <= j < e ==> s[j] != '\n'
    requires e == |s| || s[e] == '\n'
    ensures LineEnd(s, k) == e
    decreases e - k
  {
    if k < e {
      LineEndIs(s, k + 1, e);
    }
  }

  /** When no line begins with `description:`, the text is returned unchanged: no line
      is inserted. */
  lemma NoMatchUnchanged(s: string, value: string)
    requires forall i :: !KeyAt(s, i)
    ensures Rewrite(s, value) == s
  {
    assert FindKey(s, 0).None?;
  }

  /** The leftmost line beginning with the key is the one `FindKey` reports. */
  lemma FindKeyIs(s: string, i: nat)
    requires KeyAt(s, i)
    requires forall k :: 0 <= k < i ==> !KeyAt(s, k)
    ensures FindKey(s, 0) == Some(i)
  {
  }

  /** Otherwise exactly the first such line's match is replaced: the text before it and
      the text from the end of the match on are kept. The match runs over the key, the
      longest whitespace run after it, and what is left of the line where that run stops. */
  lemma RewriteReplacesFirstMatch(s: string, value: string, i: nat)
    requires KeyAt(s, i)
    requires forall k :: 0 <= k < i ==> !KeyAt(s, k)
    ensures exists m, j ::
      && i + |Key| <= m <= j <= |s|
      && (forall k :: i + |Key| <= k < m ==> IsSpace(s[k]))
      && (m == |s| || !IsSpace(s[m]))
      && (forall k :: m <= k < j ==> s[k] != '\n')
      && (j == |s| || s[j] == '\n')
      && Rewrite(s, value) == s[..i] + (Replacement + value) + s[j..]
  {
    RewriteAt(s, value, i);
    var m := SpaceEnd(s, i + |Key|);
    var j := LineEnd(s, m);
    assert (forall k :: i + |Key| <= k < m ==> IsSpace(s[k])) && (m == |s| || !IsSpace(s[m]));
    assert (forall k :: m <= k < j ==> s[k] != '\n') && (j == |s| || s[j] == '\n');
  }

  /** A line start before a match of the key cannot be a match in the prefix either way:
      the key holds no '\n', so a match starting before `i` lies wholly before it. */
  lemma KeyAtBefore(s: string, t: string, i: nat, k: nat)
    requires i <= |s| && i <= |t| && s[..i] == t[..i]
    requires LineStart(s, i) && LineStart(t, i)
    requires k < i
    ensures KeyAt(s, k) <==> KeyAt(t, k)
  {
    if k + |Key| <= i {
      assert s[k..k + |Key|] == t[k..k + |Key|] by {
        assert s[k..k + |Key|] == s[..i][k..k + |Key|];
        assert t[k..k + |Key|] == t[..i][k..k + |Key|];
      }
      assert LineStart(s, k) == LineStart(t, k) by {
        if k > 0 { assert s[k - 1] == s[..i][k - 1] && t[k - 1] == t[..i][k - 1]; }
      }
    } else {
      assert s[i - 1] == '\n' && t[i - 1] == '\n';
      assert Key[i - 1 - k] != '\n';
    }
  }

  /** The text the rewrite produces, split at the first match `i`. */
  lemma RewriteAt(s: string, value: string, i: nat)
    requires KeyAt(s, i)
    requires forall k :: 0 <= k < i ==> !KeyAt(s, k)
    ensures Rewrite(s, value) == s[..i] + (Replacement + value) + s[MatchEnd(s, i)..]
  {
    FindKeyIs(s, i);
    assert s[..i] + Replacement + value == s[..i] + (Replacement + value);
  }

  /** After the rewrite, the first line that begins with `description:` is exactly
      `description: <value>` when the value holds no line break (the edit scenario:
      any agent's file then shows the new description line). */
  lemma RewriteSetsLine(s: string, value: string, i: nat)
    requires KeyAt(s, i)
    requires forall k :: 0 <= k < i ==> !KeyAt(s, k)
    requires '\n' !in value
    ensures var r := Rewrite(s, value);
      && KeyAt(r, i) && (forall k :: 0 <= k < i ==> !KeyAt(r, k))
      && r[i..i + |Replacement| + |value|] == Replacement + value
      && (i + |Replacement| + |value| == |r| || r[i + |Replacement| + |value|] == '\n')
  {
    RewriteAt(s, value, i);
    var j := MatchEnd(s, i);
    var b := Replacement + value;
    var r := Rewrite(s, value);
    assert r == s[..i] + b + s[j..];
    assert r[..i] == s[..i];
    assert r[i..i + |b|] == b;
    assert LineStart(r, i) by { if i > 0 { assert r[i - 1] == s[..i][i - 1]; } }
    assert r[i..][..|Key|] == b[..|Key|] == Key;
    forall k | 0 <= k < i ensures !KeyAt(r, k) {
      KeyAtBefore(s, r, i, k);
    }
    if i + |b| < |r| {
      assert r[i + |b|] == s[j];
    }
  }

  /** In a text whose line at `i` starts with `description: <value>` and ends right
      after it, the match ends after the value when the value holds a non-whitespace
      character and no line break. */
  lemma MatchEndAtValue(r: string, value: string, i: nat, n: nat)
    requires KeyAt(r, i) && i + |Replacement| + |value| <= |r|
    requires r[i..i + |Replacement| + |value|] == Replacement + value
    requires i + |Replacement| + |value| == |r| || r[i + |Replacement| + |value|] == '\n'
    requires '\n' !in value
    requires n < |value| && !IsSpace(value[n])
    ensures MatchEnd(r, i) == i + |Replacement| + |value|
  {
    var end := i + |Replacement| + |value|;
    var b := Replacement + value;
    assert r[i + |Replacement| + n] == b[|Replacement| + n] == value[n];
    var m := SpaceEnd(r, i + |Key|);
    assert m <= i + |Replacement| + n;
    forall k | m <= k < end ensures r[k] != '\n' {
      assert r[k] == b[k - i];
      if k - i >= |Replacement| { assert b[k - i] == value[k - i - |Replacement|]; }
    }
    LineEndIs(r, m, end);
  }

  /** The same, from where the search finds the key line: the rewritten text's first
      key line is at the same place and reads `description: <value>`. */
  lemma RewriteShowsLine(s: string, value: string, i: nat)
    requires FindKey(s, 0) == Some(i)
    requires '\n' !in value
    ensures var r := Rewrite(s, value);
      && FindKey(r, 0) == Some(i)
      && Replacement + value <= r[i..]
      && (i + |Replacement| + |value| == |r| || r[i + |Replacement| + |value|] == '\n')
  {
    var r := Rewrite(s, value);
    RewriteSetsLine(s, value, i);
    FindKeyIs(r, i);
    assert r[i..][..|Replacement| + |value|] == r[i..i + |Replacement| + |value|];
  }

  /** Where the match ends in a text just rewritten with a value that holds a
      non-whitespace character and no line break: at the end of that value. */
  lemma MatchEndAfterRewrite(s: string, value: string, i: nat, n: nat)
    requires KeyAt(s, i)
    requires forall k :: 0 <= k < i ==> !KeyAt(s, k)
    requires '\n' !in value
    requires n < |value| && !IsSpace(value[n])
    ensures KeyAt(Rewrite(s, value), i)
    ensures MatchEnd(Rewrite(s, value), i) == i + |Replacement| + |value|
  {
    RewriteSetsLine(s, value, i);
    MatchEndAtValue(Rewrite(s, value), value, i, n);
  }

  /** Editing twice with the same description changes nothing the second time, provided
      the value holds a non-whitespace character and no line break. Without the first
      condition the second `\s*` would run past the line break into the next line. */
  lemma RewriteIdempotent(s: string, value: string)
    requires exists n :: 0 <= n < |value| && !IsSpace(value[n])
    requires '\n' !in value
    ensures Rewrite(Rewrite(s, value), value) == Rewrite(s, value)
  {
    var r := Rewrite(s, value);
    var found := FindKey(s, 0);
    if found.Some? {
      var i := found.value;
      var n :| 0 <= n < |value| && !IsSpace(value[n]);
      var b := Replacement + value;
      var j := MatchEnd(s, i);
      RewriteAt(s, value, i);
      RewriteSetsLine(s, value, i);
      MatchEndAfterRewrite(s, value, i, n);
      RewriteAt(r, value, i);
      assert r == s[..i] + b + s[j..];
      assert r[..i] == s[..i];
      assert r[i + |b|..] == s[j..];
    }
  }

  /** When the rest of the key line is blank, the `\s*` crosses that line's break, so
      the match runs into the next line; when that line starts with a non-whitespace
      character, the match takes the whole of it. */
  lemma EmptyValueSwallowsLine(s: string, i: nat, n: nat)
    requires KeyAt(s, i) && i + |Key| <= n < |s| && s[n] == '\n'
    requires forall k :: i + |Key| <= k < n ==> IsSpace(s[k])
    ensures MatchEnd(s, i) > n
    ensures n + 1 < |s| && !IsSpace(s[n + 1]) ==> MatchEnd(s, i) == LineEnd(s, n + 1)
  {
    var m := SpaceEnd(s, i + |Key|);
    assert IsSpace(s[n]);
    assert m > n;
    if n + 1 < |s| && !IsSpace(s[n + 1]) {
      assert m == n + 1;
    }
  }

  /** An instance: an empty value takes the following `name:` line with it. */
  lemma EmptyValueSwallowsNextLine()
    ensures Rewrite("description:\nname: x\n", "d") == "description: d\n"
  {
    var s := "description:\nname: x\n";
    assert KeyAt(s, 0);
    assert FindKey(s, 0) == Some(0);
    assert SpaceEnd(s, 12) == 13 by {
      assert IsSpace(s[12]) && !IsSpace(s[13]);
    }
    LineEndIs(s, 13, 20);
    assert MatchEnd(s, 0) == 20;
    assert s[20..] == "\n";
  }

  /** The rewrite brings in no character that neither the text nor the value holds
      (besides those of the replacement itself). */
  lemma RewriteAddsNothing(s: string, value: string, c: char)
    requires c !in s && c !in value && c !in Replacement
    ensures c !in Rewrite(s, value)
  {
    match FindKey(s, 0)
    case None =>
    case Some(i) =>
      var j := MatchEnd(s, i);
      assert forall x :: x in s[..i] || x in s[j..] ==> x in s;
  }
}
