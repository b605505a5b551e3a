/**
 * The entry-file patch: `replace(/<div className='main'>.*<\/div>/, ...)` on
 * the text of src/App.jsx, modelled for this one pattern rather than through
 * a regular-expression engine.
 *
 * The pattern has no flags, so `.` stops at line terminators, `.*` is greedy
 * and only the first match is replaced.
 */
module AppFile {
  import opened Wrappers

  const Open: string := "<div className='main'>"
  const Close: string := "</div>"

  /** The characters that `.` refuses to match when the pattern has no `s` flag. */
  predicate IsLineTerminator(ch: char) {
    ch == '\n' || ch == '\r' || ch == '\U{2028}' || ch == '\U{2029}'
  }

  /** The opening marker occurs at position i. */
  predicate OpenAt(t: string, i: nat) {
    i + |Open| <= |t| && t[i..i + |Open|] == Open
  }

  /** The closing `</div>` occurs at position j. */
  predicate CloseAt(t: string, j: nat) {
    j + |Close| <= |t| && t[j..j + |Close|] == Close
  }

  /** t[a..b] holds no line terminator, so `.*` can run across it. */
  predicate SameLine(t: string, a: nat, b: nat)
    requires a <= b <= |t|
  {
    forall k :: a <= k < b ==> !IsLineTerminator(t[k])
  }

  /** The pattern matches t[i..j + |Close|], with `.*` covering t[i + |Open|..j]. */
  predicate MatchAt(t: string, i: nat, j: nat) {
    OpenAt(t, i) && i + |Open| <= j && CloseAt(t, j) && SameLine(t, i + |Open|, j)
  }

  /** The match a backtracking engine reports: leftmost start and, for it, the longest `.*`. */
  ghost predicate FirstMatch(t: string, i: nat, j: nat) {
    && MatchAt(t, i, j)
    && (forall i': nat, j': nat :: MatchAt(t, i', j') ==> i <= i')
    && (forall j': nat :: MatchAt(t, i, j') ==> j' <= j)
  }

  /** What the matched span becomes. */
  function Replacement(name: string): string {
    Open + name + Close
  }

  /** Where the line that contains position k ends: the first line terminator at or after k. */
  function LineEnd(t: string, k: nat): (e: nat)
    requires k <= |t|
    ensures k <= e <= |t|
    ensures SameLine(t, k, e)
    ensures e < |t| ==> IsLineTerminator(t[e])
    decreases |t| - k
  {
    if k == |t| || IsLineTerminator(t[k]) then k else LineEnd(t, k + 1)
  }

  /**
   * Backtracking of the greedy `.*`: having run to e, give back one character
   * at a time until `</div>` follows; the result is the last `</div>` in t[s..e].
   */
  function LastClose(t: string, s: nat, e: nat): (r: Option<nat>)
    requires s <= e <= |t|
    ensures r.Some? ==> s <= r.value && r.value + |Close| <= e && CloseAt(t, r.value)
    ensures forall j: nat :: s <= j && j + |Close| <= e && CloseAt(t, j) ==> r.Some? && j <= r.value
    decreases e
  {
    if e < s + |Close| then None
    else if CloseAt(t, e - |Close|) then Some(e - |Close|)
    else LastClose(t, s, e - 1)
  }

  /** The character at offset m of an opening marker at i. */
  lemma OpenChar(t: string, i: nat, m: nat)
    ensures OpenAt(t, i) && m < |Open| ==> t[i + m] == Open[m]
  {
    if OpenAt(t, i) && m < |Open| {
      assert t[i..i + |Open|][m] == t[i + m];
    }
  }

  /** The character at offset m of a closing marker at j. */
  lemma CloseChar(t: string, j: nat, m: nat)
    ensures CloseAt(t, j) && m < |Close| ==> t[j + m] == Close[m]
  {
    if CloseAt(t, j) && m < |Close| {
      assert t[j..j + |Close|][m] == t[j + m];
    }
  }

  /** Neither marker holds a line terminator, and each has `<` only in front (so no occurrence overlaps another). */
  lemma MarkerChars(m: nat)
    ensures m < |Open| ==> !IsLineTerminator(Open[m]) && (m > 0 ==> Open[m] != '<')
    ensures m < |Close| ==> !IsLineTerminator(Close[m]) && (m > 0 ==> Close[m] != '<')
  {
    assert Open == ['<', 'd', 'i', 'v', ' ', 'c', 'l', 'a', 's', 's', 'N', 'a', 'm', 'e',
                    '=', '\'', 'm', 'a', 'i', 'n', '\'', '>'];
    assert Close == ['<', '/', 'd', 'i', 'v', '>'];
  }

  /** A stretch without line terminators that starts at k ends by the end of k's line. */
  lemma {:induction false} LineEndBound(t: string, k: nat, b: nat)
    requires k <= b <= |t| && SameLine(t, k, b)
    ensures b <= LineEnd(t, k)
    decreases b - k
  {
    if k < b {
      assert !IsLineTerminator(t[k]);
      LineEndBound(t, k + 1, b);
    }
  }

  /** A `</div>` starting on the current line ends on it too. */
  lemma CloseStaysOnLine(t: string, s: nat, j: nat)
    requires s <= j && CloseAt(t, j) && SameLine(t, s, j)
    ensures j + |Close| <= LineEnd(t, s)
  {
    forall k | j <= k < j + |Close| ensures !IsLineTerminator(t[k]) {
      CloseChar(t, j, k - j);
      MarkerChars(k - j);
    }
    LineEndBound(t, s, j + |Close|);
  }

  /** The end of the greedy `.*` for an opening marker at i, if `</div>` follows on its line. */
  function GreedyEnd(t: string, i: nat): (r: Option<nat>)
    requires OpenAt(t, i)
    ensures r.Some? ==> MatchAt(t, i, r.value)
    ensures forall j: nat :: MatchAt(t, i, j) ==> r.Some? && j <= r.value
  {
    var s := i + |Open|;
    var e := LineEnd(t, s);
    var r := LastClose(t, s, e);
    assert forall j: nat :: MatchAt(t, i, j) ==> j + |Close| <= e by {
      forall j: nat | MatchAt(t, i, j) ensures j + |Close| <= e {
        CloseStaysOnLine(t, s, j);
      }
    }
    r
  }

  /** The leftmost match starting at or after i, with its greedy end. */
  function FindFrom(t: string, i: nat): (r: Option<(nat, nat)>)
    ensures r.Some? ==> i <= r.value.0 && MatchAt(t, r.value.0, r.value.1)
    ensures r.Some? ==> forall j': nat :: MatchAt(t, r.value.0, j') ==> j' <= r.value.1
    ensures r.Some? ==> forall i': nat, j': nat :: i <= i' < r.value.0 ==> !MatchAt(t, i', j')
    ensures r.None? ==> forall i': nat, j': nat :: i <= i' ==> !MatchAt(t, i', j')
    decreases |t| - i
  {
    if |t| < i + |Open| then None
    else if OpenAt(t, i) && GreedyEnd(t, i).Some? then Some((i, GreedyEnd(t, i).value))
    else FindFrom(t, i + 1)
  }

  /**
   * The search from the front finds a match exactly when there is one, and
   * what it finds is the first match, the only one there is.
   */
  lemma FindFirstMatch(t: string)
    ensures FindFrom(t, 0).None? <==> forall i: nat, j: nat :: !MatchAt(t, i, j)
    ensures FindFrom(t, 0).Some? ==> FirstMatch(t, FindFrom(t, 0).value.0, FindFrom(t, 0).value.1)
    ensures forall i: nat, j: nat :: FirstMatch(t, i, j) ==> FindFrom(t, 0) == Some((i, j))
  {
    var r := FindFrom(t, 0);
    if r.Some? {
      var (a, b) := r.value;
      assert FirstMatch(t, a, b);
      forall i: nat, j: nat | FirstMatch(t, i, j) ensures (i, j) == (a, b) {
        assert i <= a && a <= i;
        assert j <= b && b <= j;
      }
    }
  }

  /**
   * `appFileContent.replace(pattern, "<div className='main'>" + projectName + "</div>")`.
   * Without a match the text is unchanged; otherwise the first match, from its
   * opening marker to the last `</div>` on that line, is replaced and the
   * text around it is kept.
   */
  function PatchApp(t: string, name: string): (r: string)
    requires '$' !in name
    ensures (forall i: nat, j: nat :: !MatchAt(t, i, j)) ==> r == t
    ensures forall i: nat, j: nat :: FirstMatch(t, i, j) ==>
              r == t[..i] + Open + name + Close + t[j + |Close|..]
  {
    FindFirstMatch(t);
    match FindFrom(t, 0)
    case None => t
    case Some((i, j)) => t[..i] + Replacement(name) + t[j + |Close|..]
  }

  /** The characters of t[..i] + Open + name + Close + t[j + |Close|..], region by region. */
  lemma SpliceChars(t: string, i: nat, j: nat, name: string, u: string)
    requires i + |Open| <= j && j + |Close| <= |t|
    requires u == t[..i] + Open + name + Close + t[j + |Close|..]
    ensures |u| == |t| - (j - i) + |Open| + |name|
    ensures forall k :: 0 <= k < i ==> u[k] == t[k]
    ensures forall m :: 0 <= m < |Open| ==> u[i + m] == Open[m]
    ensures forall m :: 0 <= m < |name| ==> u[i + |Open| + m] == name[m]
    ensures forall m :: 0 <= m < |Close| ==> u[i + |Open| + |name| + m] == Close[m]
    ensures forall k :: j + |Close| <= k < |t| ==> u[k - j + i + |Open| + |name|] == t[k]
  {
  }

  /** In the patched text the new span is a match. */
  lemma SpliceMatches(t: string, i: nat, j: nat, name: string, u: string)
    requires MatchAt(t, i, j)
    requires forall k :: 0 <= k < |name| ==> !IsLineTerminator(name[k])
    requires u == t[..i] + Open + name + Close + t[j + |Close|..]
    ensures MatchAt(u, i, i + |Open| + |name|)
  {
    SpliceChars(t, i, j, name, u);
    var e := i + |Open| + |name|;
    assert u[i..i + |Open|] == Open;
    assert u[e..e + |Close|] == Close;
    forall k | i + |Open| <= k < e ensures !IsLineTerminator(u[k]) {
      assert u[k] == name[k - i - |Open|];
    }
  }

  /** Before the new span the patched text is the original, so an opening marker there is one in t. */
  lemma SpliceOpenBefore(t: string, i: nat, j: nat, name: string, u: string, i': nat)
    requires MatchAt(t, i, j)
    requires u == t[..i] + Open + name + Close + t[j + |Close|..]
    requires OpenAt(u, i') && i' < i
    ensures i' + |Open| <= i && OpenAt(t, i')
  {
    SpliceChars(t, i, j, name, u);
    assert u[i] == '<';
    OpenChar(u, i', i - i');
    MarkerChars(i - i');
    assert i' + |Open| <= i;
    forall m | 0 <= m < |Open| ensures t[i' + m] == Open[m] {
      OpenChar(u, i', m);
      assert u[i' + m] == t[i' + m];
    }
    assert t[i'..i' + |Open|] == Open;
  }

  /** A match of the patched text that ends before the new span is a match of t. */
  lemma SpliceMatchBefore(t: string, i: nat, j: nat, name: string, u: string, i': nat, j': nat)
    requires MatchAt(t, i, j)
    requires u == t[..i] + Open + name + Close + t[j + |Close|..]
    requires MatchAt(u, i', j') && j' + |Close| <= i && OpenAt(t, i')
    ensures MatchAt(t, i', j')
  {
    SpliceChars(t, i, j, name, u);
    forall m | 0 <= m < |Close| ensures t[j' + m] == Close[m] {
      CloseChar(u, j', m);
      assert u[j' + m] == t[j' + m];
    }
    assert t[j'..j' + |Close|] == Close;
    forall k | i' + |Open| <= k < j' ensures !IsLineTerminator(t[k]) {
      assert u[k] == t[k];
    }
  }

  /** A match of the patched text from before the new span into it gives one of t up to the old `</div>`. */
  lemma SpliceMatchAcross(t: string, i: nat, j: nat, name: string, u: string, i': nat, j': nat)
    requires MatchAt(t, i, j)
    requires u == t[..i] + Open + name + Close + t[j + |Close|..]
    requires MatchAt(u, i', j') && i < j' + |Close| && i' + |Open| <= i && OpenAt(t, i')
    ensures MatchAt(t, i', j)
  {
    SpliceChars(t, i, j, name, u);
    assert u[i] == '<';
    if j' < i {
      CloseChar(u, j', i - j');
      MarkerChars(i - j');
    }
    assert i <= j';
    forall k | i' + |Open| <= k < j ensures !IsLineTerminator(t[k]) {
      if k < i {
        assert u[k] == t[k];
      } else if k < i + |Open| {
        OpenChar(t, i, k - i);
        MarkerChars(k - i);
      }
    }
  }

  /**
   * A match in the patched text that starts left of the new span is a match
   * in the original text too, ending where it ended or at the old span's end.
   */
  lemma SpliceLeftmost(t: string, i: nat, j: nat, name: string, u: string, i': nat, j': nat)
    requires MatchAt(t, i, j)
    requires u == t[..i] + Open + name + Close + t[j + |Close|..]
    requires MatchAt(u, i', j') && i' < i
    ensures MatchAt(t, i', j') || MatchAt(t, i', j)
  {
    SpliceOpenBefore(t, i, j, name, u, i');
    if j' + |Close| <= i {
      SpliceMatchBefore(t, i, j, name, u, i', j');
    } else {
      SpliceMatchAcross(t, i, j, name, u, i', j');
    }
  }

  /**
   * A match in the patched text from the new span's start that runs past the
   * new `</div>` is a match in the original text running past the old one.
   */
  lemma SpliceLongest(t: string, i: nat, j: nat, name: string, u: string, j': nat)
    requires MatchAt(t, i, j)
    requires u == t[..i] + Open + name + Close + t[j + |Close|..]
    requires MatchAt(u, i, j') && i + |Open| + |name| < j'
    ensures j < j' - (i + |Open| + |name|) + j
    ensures MatchAt(t, i, j' - (i + |Open| + |name|) + j)
  {
    SpliceChars(t, i, j, name, u);
    var e := i + |Open| + |name|;
    CloseChar(u, j', 0);
    MarkerChars(j' - e);
    assert e + |Close| <= j';
    var jj := j' - e + j;
    assert CloseAt(t, jj) by {
      forall m | 0 <= m < |Close| ensures t[jj + m] == Close[m] {
        CloseChar(u, j', m);
        assert u[(jj + m) - j + i + |Open| + |name|] == t[jj + m];
      }
      assert t[jj..jj + |Close|] == Close;
    }
    assert SameLine(t, i + |Open|, jj) by {
      forall k | i + |Open| <= k < jj ensures !IsLineTerminator(t[k]) {
        if j <= k < j + |Close| {
          CloseChar(t, j, k - j);
          MarkerChars(k - j);
        } else if j + |Close| <= k {
          assert u[k - j + i + |Open| + |name|] == t[k];
        }
      }
    }
  }

  /**
   * Patching an already patched text with the same name changes nothing, as
   * long as the name stays on one line (a name with a line break splits the
   * new span, and a second patch then looks elsewhere).
   */
  lemma PatchAppIdempotent(t: string, name: string)
    requires '$' !in name
    requires forall k :: 0 <= k < |name| ==> !IsLineTerminator(name[k])
    ensures PatchApp(PatchApp(t, name), name) == PatchApp(t, name)
  {
    FindFirstMatch(t);
    var r := FindFrom(t, 0);
    if r.Some? {
      var (i, j) := r.value;
      var u := PatchApp(t, name);
      assert u == t[..i] + Open + name + Close + t[j + |Close|..];
      var e := i + |Open| + |name|;
      SpliceMatches(t, i, j, name, u);
      forall i': nat, j': nat | MatchAt(u, i', j') ensures i <= i' {
        if i' < i {
          SpliceLeftmost(t, i, j, name, u, i', j');
        }
      }
      forall j': nat | MatchAt(u, i, j') ensures j' <= e {
        if e < j' {
          SpliceLongest(t, i, j, name, u, j');
        }
      }
      assert FirstMatch(u, i, e);
      assert u[..i] == t[..i];
      assert u[e + |Close|..] == t[j + |Close|..];
    }
  }
}
