/** HtmlTemplateParameterExtractor: the placeholders `{{ KEY }}` of an HTML
    template, each key once, in the order of its first occurrence.

    The token pattern is `\{\{\s*([^\{\}\s]+)\s*\}\}`. Its three parts after
    the opening braces are greedy and their character classes are disjoint,
    so at a given start position the pattern can match in at most one way;
    the regular-expression engine is modelled by the scanner MatchAt, which
    finds that one way, and Matches, which tries start positions left to
    right and resumes after each match. */
module HtmlTemplateParameterExtractor {
  import opened Wrappers
  import opened Text

  predicate IsKeyChar(c: char) {
    c != '{' && c != '}' && !IsWhiteSpace(c)
  }

  /** The positions of one match: `{{` at start, the key in
      [keyStart, keyEnd), `}}` just before end. */
  datatype Match = Match(start: nat, keyStart: nat, keyEnd: nat, end: nat)

  predicate AllWhiteSpace(t: string) {
    forall k :: 0 <= k < |t| ==> IsWhiteSpace(t[k])
  }

  predicate AllKeyChars(t: string) {
    forall k :: 0 <= k < |t| ==> IsKeyChar(t[k])
  }

  /** A non-empty run of key characters: what the capture group matches. */
  predicate IsValidKey(k: string) {
    |k| > 0 && AllKeyChars(k)
  }

  /** The reference reading of the pattern: m delimits an occurrence of
      `{{`, white space, one or more key characters, white space, `}}`. */
  ghost predicate IsToken(s: string, m: Match) {
    && m.start + 2 <= m.keyStart < m.keyEnd && m.keyEnd + 2 <= m.end <= |s|
    && s[m.start] == '{' && s[m.start + 1] == '{'
    && AllWhiteSpace(s[m.start + 2..m.keyStart])
    && IsValidKey(s[m.keyStart..m.keyEnd])
    && AllWhiteSpace(s[m.keyEnd..m.end - 2])
    && s[m.end - 2] == '}' && s[m.end - 1] == '}'
  }

  /** The first index from i on that is not white space. */
  function SkipWhiteSpace(s: string, i: nat): (j: nat)
    requires i <= |s|
    ensures i <= j <= |s| && (j == |s| || !IsWhiteSpace(s[j]))
    ensures AllWhiteSpace(s[i..j])
    decreases |s| - i
  {
    if i < |s| && IsWhiteSpace(s[i]) then
      var j := SkipWhiteSpace(s, i + 1);
      assert forall k :: 0 < k < j - i ==> s[i..j][k] == s[i + 1..j][k - 1];
      j
    else i
  }

  /** The first index from i on that is not a key character. */
  function SkipKey(s: string, i: nat): (j: nat)
    requires i <= |s|
    ensures i <= j <= |s| && (j == |s| || !IsKeyChar(s[j]))
    ensures AllKeyChars(s[i..j])
    decreases |s| - i
  {
    if i < |s| && IsKeyChar(s[i]) then
      var j := SkipKey(s, i + 1);
      assert forall k :: 0 < k < j - i ==> s[i..j][k] == s[i + 1..j][k - 1];
      j
    else i
  }

  /** The match of the pattern that starts at i, if there is one. */
  function MatchAt(s: string, i: nat): (r: Option<Match>)
    ensures r.Some? ==> r.value.start == i && IsToken(s, r.value)
    ensures r.Some? ==> r.value.keyStart <= r.value.keyEnd <= |s| && i < r.value.end
  {
    if i + 2 <= |s| && s[i] == '{' && s[i + 1] == '{' then
      var keyStart := SkipWhiteSpace(s, i + 2);
      var keyEnd := SkipKey(s, keyStart);
      if keyEnd == keyStart then None
      else
        var close := SkipWhiteSpace(s, keyEnd);
        if close + 2 <= |s| && s[close] == '}' && s[close + 1] == '}' then
          Some(Match(i, keyStart, keyEnd, close + 2))
        else None
    else None
  }

  ghost predicate AllTokens(s: string, ms: seq<Match>) {
    forall k :: 0 <= k < |ms| ==> IsToken(s, ms[k])
  }

  /** Regex.Matches from position i: leftmost matches, each search resuming
      where the previous match ended. */
  function Matches(s: string, i: nat): (r: seq<Match>)
    ensures AllInBounds(s, r)
    decreases |s| - i
  {
    if i >= |s| then []
    else match MatchAt(s, i)
      case Some(m) => [m] + Matches(s, m.end)
      case None => Matches(s, i + 1)
  }

  function KeyOf(s: string, m: Match): string
    requires m.keyStart <= m.keyEnd <= |s|
  {
    s[m.keyStart..m.keyEnd]
  }

  predicate AllInBounds(s: string, ms: seq<Match>) {
    forall k :: 0 <= k < |ms| ==> ms[k].keyStart <= ms[k].keyEnd <= |s|
  }

  /** The text each match captures in its group, in order. */
  function Captures(s: string, ms: seq<Match>): (r: seq<string>)
    requires AllInBounds(s, ms)
    ensures |r| == |ms|
  {
    seq(|ms|, k requires 0 <= k < |ms| => KeyOf(s, ms[k]))
  }

  /** The captures trimmed, the empty ones dropped. */
  function TrimmedKeys(caps: seq<string>): seq<string> {
    if caps == [] then []
    else
      var key := Trim(caps[|caps| - 1]);
      if |key| == 0 then TrimmedKeys(caps[..|caps| - 1])
      else TrimmedKeys(caps[..|caps| - 1]) + [key]
  }

  /** Every key the regular expression captures in the text. */
  function AllKeys(s: string): seq<string> {
    var ms := Matches(s, 0);
    TrimmedKeys(Captures(s, ms))
  }

  /** The list ExtractKeys builds: a value is appended when the set has not
      seen it yet. */
  function Dedup(xs: seq<string>): (r: seq<string>)
    ensures forall x :: x in r <==> x in xs
  {
    if xs == [] then []
    else
      var prefix := Dedup(xs[..|xs| - 1]);
      var x := xs[|xs| - 1];
      if x in prefix then prefix else prefix + [x]
  }

  ghost predicate NoDuplicates(xs: seq<string>) {
    forall i, j :: 0 <= i < j < |xs| ==> xs[i] != xs[j]
  }

  /** The position of the first occurrence of x in xs. */
  function FirstIndex(xs: seq<string>, x: string): (i: nat)
    requires x in xs
    ensures i < |xs| && xs[i] == x && x !in xs[..i]
  {
    if xs[0] == x then 0 else 1 + FirstIndex(xs[1..], x)
  }

  /** ExtractKeys: a HashSet of the keys seen and a list of them in order. */
  method ExtractKeys(html: Option<string>) returns (ordered: seq<string>)
    ensures ordered == Dedup(AllKeys(html.GetOr("")))
    ensures IsNullOrWhiteSpace(html) ==> ordered == []
    ensures NoDuplicates(ordered)
    ensures forall k :: k in ordered ==> IsValidKey(k)
    ensures forall k :: k in ordered ==> exists m :: IsToken(html.GetOr(""), m) && KeyOf(html.GetOr(""), m) == k
  {
    if IsNullOrWhiteSpace(html) {
      NoMatchesInWhiteSpace(html.GetOr(""), 0);
      return [];
    }
    var s := html.value;
    var caps := Captures(s, Matches(s, 0));
    var seen: set<string> := {};
    ordered := [];
    var i := 0;
    while i < |caps|
      invariant 0 <= i <= |caps|
      invariant ordered == Dedup(TrimmedKeys(caps[..i]))
      invariant forall k :: k in seen <==> k in ordered
    {
      var key := Trim(caps[i]);
      ghost var before := TrimmedKeys(caps[..i]);
      TrimmedKeysSnoc(caps, i);
      DedupSnoc(before, key);
      i := i + 1;
      if |key| == 0 {
        continue;
      }
      if key !in seen {
        seen := seen + {key};
        ordered := ordered + [key];
      }
    }
    assert caps[..i] == caps;
    ExtractedKeysShape(s);
  }

  // =====================================================================
  // Properties
  // =====================================================================

  lemma {:induction false} SkipWhiteSpaceStopsAt(s: string, i: nat, j: nat)
    requires i <= j < |s| && !IsWhiteSpace(s[j])
    requires AllWhiteSpace(s[i..j])
    ensures SkipWhiteSpace(s, i) == j
    decreases j - i
  {
    if i < j {
      assert s[i..j][0] == s[i];
      assert forall k :: 0 < k < j - i ==> s[i..j][k] == s[i + 1..j][k - 1];
      SkipWhiteSpaceStopsAt(s, i + 1, j);
    }
  }

  lemma {:induction false} SkipKeyStopsAt(s: string, i: nat, j: nat)
    requires i <= j < |s| && !IsKeyChar(s[j])
    requires AllKeyChars(s[i..j])
    ensures SkipKey(s, i) == j
    decreases j - i
  {
    if i < j {
      assert s[i..j][0] == s[i];
      assert forall k :: 0 < k < j - i ==> s[i..j][k] == s[i + 1..j][k - 1];
      SkipKeyStopsAt(s, i + 1, j);
    }
  }

  /** The three scans of MatchAt stop at the boundaries of a token. */
  lemma TokenBoundaries(s: string, m: Match)
    requires IsToken(s, m)
    ensures SkipWhiteSpace(s, m.start + 2) == m.keyStart
    ensures SkipKey(s, m.keyStart) == m.keyEnd
    ensures SkipWhiteSpace(s, m.keyEnd) == m.end - 2
  {
    assert IsKeyChar(s[m.keyStart]) by {
      assert s[m.keyStart..m.keyEnd][0] == s[m.keyStart];
    }
    SkipWhiteSpaceStopsAt(s, m.start + 2, m.keyStart);
    assert !IsKeyChar(s[m.keyEnd]) by {
      if m.keyEnd < m.end - 2 {
        assert s[m.keyEnd..m.end - 2][0] == s[m.keyEnd];
      }
    }
    SkipKeyStopsAt(s, m.keyStart, m.keyEnd);
    SkipWhiteSpaceStopsAt(s, m.keyEnd, m.end - 2);
  }

  /** At a start position the pattern matches in at most one way, and the
      scanner finds it: MatchAt is complete for IsToken. */
  lemma TokenIsUnique(s: string, m: Match)
    requires IsToken(s, m)
    ensures MatchAt(s, m.start) == Some(m)
  {
    TokenBoundaries(s, m);
    ScanFindsMatch(s, m.start, m.keyStart, m.keyEnd, m.end - 2);
  }

  /** MatchAt, read forwards: the scans that stop at these positions yield
      this match. */
  lemma ScanFindsMatch(s: string, i: nat, keyStart: nat, keyEnd: nat, close: nat)
    requires i + 2 <= |s| && s[i] == '{' && s[i + 1] == '{'
    requires SkipWhiteSpace(s, i + 2) == keyStart && keyStart < keyEnd
    requires keyStart <= |s| && SkipKey(s, keyStart) == keyEnd
    requires keyEnd <= |s| && SkipWhiteSpace(s, keyEnd) == close
    requires close + 2 <= |s| && s[close] == '}' && s[close + 1] == '}'
    ensures MatchAt(s, i) == Some(Match(i, keyStart, keyEnd, close + 2))
  {
  }

  /** Matches are leftmost: the first match found from i starts no later
      than any token that starts at or after i. */
  lemma {:induction false} MatchesLeftmost(s: string, i: nat, m: Match)
    requires IsToken(s, m) && i <= m.start
    ensures Matches(s, i) != [] && Matches(s, i)[0].start <= m.start
    decreases |s| - i
  {
    assert i < |s|;
    if MatchAt(s, i).Some? {
      var m0 := MatchAt(s, i).value;
      assert Matches(s, i) == [m0] + Matches(s, m0.end);
    } else {
      assert i != m.start by {
        TokenIsUnique(s, m);
      }
      assert Matches(s, i) == Matches(s, i + 1);
      MatchesLeftmost(s, i + 1, m);
    }
  }

  /** Every match is a token. */
  lemma {:induction false} MatchesAreTokens(s: string, i: nat)
    ensures AllTokens(s, Matches(s, i))
    decreases |s| - i
  {
    if i < |s| {
      if MatchAt(s, i).Some? {
        var m := MatchAt(s, i).value;
        var rest := Matches(s, m.end);
        MatchesAreTokens(s, m.end);
        var r := [m] + rest;
        assert Matches(s, i) == r;
        forall k | 0 <= k < |r| ensures IsToken(s, r[k]) {
          if k > 0 {
            assert r[k] == rest[k - 1];
          }
        }
      } else {
        MatchesAreTokens(s, i + 1);
      }
    }
  }

  /** The matches are found at or after i, each starting where or after the
      previous one ended. */
  lemma {:induction false} MatchesInOrder(s: string, i: nat)
    ensures forall k :: 0 <= k < |Matches(s, i)| ==> i <= Matches(s, i)[k].start
    ensures forall k :: 0 < k < |Matches(s, i)| ==> Matches(s, i)[k - 1].end <= Matches(s, i)[k].start
    decreases |s| - i
  {
    if i < |s| {
      if MatchAt(s, i).Some? {
        var m := MatchAt(s, i).value;
        var rest := Matches(s, m.end);
        MatchesInOrder(s, m.end);
        var r := [m] + rest;
        assert Matches(s, i) == r;
        assert forall k :: 0 < k < |r| ==> r[k] == rest[k - 1];
      } else {
        MatchesInOrder(s, i + 1);
      }
    }
  }

  /** Text made only of white space holds no match. */
  lemma {:induction false} NoMatchesInWhiteSpace(s: string, i: nat)
    requires IsNullOrWhiteSpace(Some(s))
    ensures Matches(s, i) == []
    decreases |s| - i
  {
    if i < |s| {
      assert MatchAt(s, i) == None by {
        if i + 2 <= |s| {
          assert IsWhiteSpace(s[i]);
        }
      }
      NoMatchesInWhiteSpace(s, i + 1);
    }
  }

  /** The trim is a no-op on a captured key, and the key is never empty. */
  lemma TrimmedKeyIsKey(s: string, m: Match)
    requires IsToken(s, m)
    ensures Trim(KeyOf(s, m)) == KeyOf(s, m)
    ensures IsValidKey(KeyOf(s, m))
  {
    var key := KeyOf(s, m);
    assert IsKeyChar(key[0]) && IsKeyChar(key[|key| - 1]);
    TrimNoOp(key);
  }

  /** One more capture adds its trimmed text, unless that is empty. */
  lemma TrimmedKeysSnoc(caps: seq<string>, i: nat)
    requires i < |caps|
    ensures |Trim(caps[i])| == 0 ==> TrimmedKeys(caps[..i + 1]) == TrimmedKeys(caps[..i])
    ensures |Trim(caps[i])| != 0 ==> TrimmedKeys(caps[..i + 1]) == TrimmedKeys(caps[..i]) + [Trim(caps[i])]
  {
    assert caps[..i + 1][..i] == caps[..i];
  }

  lemma DedupSnoc(xs: seq<string>, x: string)
    ensures Dedup(xs + [x]) == if x in Dedup(xs) then Dedup(xs) else Dedup(xs) + [x]
  {
    assert (xs + [x])[..|xs|] == xs;
  }

  /** Trimming leaves captures that are keys as they are. */
  lemma {:induction false} TrimmedKeysOfKeys(caps: seq<string>)
    requires forall k :: 0 <= k < |caps| ==> IsValidKey(caps[k])
    ensures TrimmedKeys(caps) == caps
  {
    if caps != [] {
      var n := |caps| - 1;
      var key := caps[n];
      TrimmedKeysOfKeys(caps[..n]);
      assert IsKeyChar(key[0]) && IsKeyChar(key[|key| - 1]);
      TrimNoOp(key);
      SplitLast(caps);
    }
  }

  lemma SplitLast(xs: seq<string>)
    requires xs != []
    ensures xs == xs[..|xs| - 1] + [xs[|xs| - 1]]
  {
  }

  /** The keys of the text are its captures, each a valid key taken from a
      token. */
  lemma AllKeysAreCaptures(s: string)
    ensures AllKeys(s) == Captures(s, Matches(s, 0))
    ensures forall n :: 0 <= n < |AllKeys(s)| ==>
      IsValidKey(AllKeys(s)[n]) && exists m :: IsToken(s, m) && KeyOf(s, m) == AllKeys(s)[n]
  {
    var ms := Matches(s, 0);
    var caps := Captures(s, ms);
    MatchesAreTokens(s, 0);
    forall n | 0 <= n < |caps|
      ensures IsValidKey(caps[n]) && IsToken(s, ms[n]) && KeyOf(s, ms[n]) == caps[n]
    {
      assert caps[n] == KeyOf(s, ms[n]);
      assert IsToken(s, ms[n]);
    }
    TrimmedKeysOfKeys(caps);
  }

  /** Every key is valid and occurs as a token in the text. */
  lemma AllKeysValid(s: string)
    ensures forall k :: k in AllKeys(s) ==> IsValidKey(k)
    ensures forall k :: k in AllKeys(s) ==> exists m :: IsToken(s, m) && KeyOf(s, m) == k
  {
    AllKeysAreCaptures(s);
  }

  /** What ExtractKeys promises about the list it returns. */
  lemma ExtractedKeysShape(s: string)
    ensures NoDuplicates(Dedup(AllKeys(s)))
    ensures forall k :: k in Dedup(AllKeys(s)) ==> IsValidKey(k)
    ensures forall k :: k in Dedup(AllKeys(s)) ==> exists m :: IsToken(s, m) && KeyOf(s, m) == k
  {
    DedupNoDuplicates(AllKeys(s));
    AllKeysValid(s);
  }

  lemma {:induction false} DedupNoDuplicates(xs: seq<string>)
    ensures NoDuplicates(Dedup(xs))
  {
    if xs != [] {
      DedupNoDuplicates(xs[..|xs| - 1]);
    }
  }

  /** Keys keep the order of their first occurrence. */
  lemma {:induction false} DedupFirstOccurrenceOrder(xs: seq<string>)
    ensures forall i, j :: 0 <= i < j < |Dedup(xs)| ==>
      FirstIndex(xs, Dedup(xs)[i]) < FirstIndex(xs, Dedup(xs)[j])
  {
    if xs != [] {
      var init := xs[..|xs| - 1];
      var x := xs[|xs| - 1];
      DedupFirstOccurrenceOrder(init);
      var prefix := Dedup(init);
      SplitLast(xs);
      forall y | y in init
        ensures FirstIndex(xs, y) == FirstIndex(init, y)
      {
        FirstIndexOfPrefix(init, [x], y);
      }
      if x !in init {
        assert FirstIndex(xs, x) == |init| by {
          FirstIndexAt(xs, x, |init|);
        }
        var r := prefix + [x];
        forall i, j | 0 <= i < j < |r|
          ensures FirstIndex(xs, r[i]) < FirstIndex(xs, r[j])
        {
          assert r[i] == prefix[i] && prefix[i] in init;
          if j < |prefix| {
            assert r[j] == prefix[j] && prefix[j] in init;
          }
        }
      } else {
        forall i, j | 0 <= i < j < |prefix|
          ensures FirstIndex(xs, prefix[i]) < FirstIndex(xs, prefix[j])
        {
          assert prefix[i] in init && prefix[j] in init;
        }
      }
    }
  }

  lemma {:induction false} FirstIndexOfPrefix(xs: seq<string>, ys: seq<string>, y: string)
    requires y in xs
    ensures FirstIndex(xs + ys, y) == FirstIndex(xs, y)
  {
    if xs[0] != y {
      assert (xs + ys)[1..] == xs[1..] + ys;
      FirstIndexOfPrefix(xs[1..], ys, y);
    }
  }

  lemma {:induction false} FirstIndexAt(xs: seq<string>, x: string, n: nat)
    requires n < |xs| && xs[n] == x && x !in xs[..n]
    ensures FirstIndex(xs, x) == n
  {
    if n > 0 {
      assert xs[0] != x by {
        assert xs[0] == xs[..n][0];
      }
      assert xs[1..][..n - 1] == xs[..n][1..];
      FirstIndexAt(xs[1..], x, n - 1);
    }
  }
}
