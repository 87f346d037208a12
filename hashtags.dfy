/** The text scanning of the scrape function (supabase/functions/scrape-linkedin/index.ts):
    the hashtags `/#([a-zA-Z0-9_]+)/g` finds, their removal by `/#[\w]+/g`, the
    collapsing of whitespace runs by `/\s+/g`, and the cleaned-up member
    description built from them. */
module Hashtags {
  import opened Common
  import opened Text

  /** `s[i..j]` consists of word characters `[A-Za-z0-9_]`. */
  predicate WordRun(s: string, i: nat, j: nat)
    requires i <= j <= |s|
  {
    forall k :: i <= k < j ==> IsWordChar(s[k])
  }

  /** The end of the longest run of word characters that starts at `i`: the
      greedy `+` of the pattern. */
  function RunEnd(s: string, i: nat): (e: nat)
    requires i <= |s|
    ensures i <= e <= |s|
    ensures WordRun(s, i, e)
    ensures e == |s| || !IsWordChar(s[e])
    decreases |s| - i
  {
    if i < |s| && IsWordChar(s[i]) then RunEnd(s, i + 1) else i
  }

  /** A `#` at `p` followed by a word character: where the pattern matches. */
  predicate TagAt(s: string, p: nat) {
    p + 1 < |s| && s[p] == '#' && IsWordChar(s[p + 1])
  }

  ghost predicate HasTag(s: string) {
    exists p: nat :: TagAt(s, p)
  }

  /** The name of a matched tag: `s[start..end]`, just after its `#`. */
  datatype Span = Span(start: nat, end: nat)

  /** The tag names the global match finds from `i` on. After a match the
      scan resumes where the run ended; after a failed `#` it resumes one
      character on. */
  function TagSpans(s: string, i: nat): (spans: seq<Span>)
    requires i <= |s|
    ensures forall k :: 0 <= k < |spans| ==>
              && i < spans[k].start <= |s|
              && TagAt(s, spans[k].start - 1)
              && spans[k].end == RunEnd(s, spans[k].start)
    decreases |s| - i
  {
    if i == |s| then []
    else if TagAt(s, i) then [Span(i + 1, RunEnd(s, i + 1))] + TagSpans(s, RunEnd(s, i + 1))
    else TagSpans(s, i + 1)
  }

  /** The spans come in text order and do not overlap. */
  lemma {:induction false} TagSpansOrdered(s: string, i: nat)
    requires i <= |s|
    ensures forall k, l :: 0 <= k < l < |TagSpans(s, i)| ==> TagSpans(s, i)[k].end < TagSpans(s, i)[l].start
    decreases |s| - i
  {
    if i < |s| {
      if TagAt(s, i) {
        var e := RunEnd(s, i + 1);
        TagSpansOrdered(s, e);
        PrependOrdered(Span(i + 1, e), TagSpans(s, e));
      } else {
        TagSpansOrdered(s, i + 1);
      }
    }
  }

  /** A span ending before every span of an ordered list keeps it ordered
      when put in front. */
  lemma PrependOrdered(first: Span, rest: seq<Span>)
    requires forall k, l :: 0 <= k < l < |rest| ==> rest[k].end < rest[l].start
    requires forall k :: 0 <= k < |rest| ==> first.end < rest[k].start
    ensures forall k, l :: 0 <= k < l < |[first] + rest| ==> ([first] + rest)[k].end < ([first] + rest)[l].start
  {
    var spans := [first] + rest;
    forall k, l | 0 <= k < l < |spans| ensures spans[k].end < spans[l].start {
      assert spans[l] == rest[l - 1];
      if k > 0 {
        assert spans[k] == rest[k - 1];
      }
    }
  }

  /** The scan misses no tag: every `#` followed by a word character at or
      after `i` starts one of the spans, the `k`-th. */
  lemma {:induction false} EveryTagIsFound(s: string, i: nat, p: nat) returns (k: nat)
    requires i <= p && TagAt(s, p)
    ensures k < |TagSpans(s, i)| && TagSpans(s, i)[k].start == p + 1
    decreases |s| - i
  {
    if TagAt(s, i) {
      var e := RunEnd(s, i + 1);
      if p == i {
        k := 0;
      } else {
        assert !IsWordChar(s[p]);
        var k0 := EveryTagIsFound(s, e, p);
        k := k0 + 1;
        assert TagSpans(s, i)[k] == TagSpans(s, e)[k0];
      }
    } else {
      k := EveryTagIsFound(s, i + 1, p);
    }
  }

  /** `extractHashtags`: each match lower-cased, without its `#`. */
  function ExtractHashtags(text: string): (tags: seq<string>)
    ensures |tags| == |TagSpans(text, 0)|
    ensures forall k :: 0 <= k < |tags| ==> tags[k] != [] && HasNoUpper(tags[k])
    ensures forall k, c :: 0 <= k < |tags| && c in tags[k] ==> IsWordChar(c)
  {
    var spans := TagSpans(text, 0);
    seq(|spans|, k requires 0 <= k < |spans| => Lower(text[spans[k].start..spans[k].end]))
  }

  /** The position of each found tag's `#`. */
  function TagStarts(text: string): (pos: seq<nat>)
    ensures |pos| == |TagSpans(text, 0)|
    ensures forall k :: 0 <= k < |pos| ==> pos[k] + 1 == TagSpans(text, 0)[k].start
  {
    var spans := TagSpans(text, 0);
    seq(|spans|, k requires 0 <= k < |spans| => spans[k].start - 1)
  }

  /** Tag `k` is the lower-cased word run after the `#` at `pos[k]`. */
  ghost predicate TagsAt(text: string, pos: seq<nat>)
    requires |pos| == |ExtractHashtags(text)|
  {
    forall k :: 0 <= k < |pos| ==>
      TagAt(text, pos[k]) && ExtractHashtags(text)[k] == Lower(text[pos[k] + 1..RunEnd(text, pos[k] + 1)])
  }

  ghost predicate Increasing(pos: seq<nat>) {
    forall k, l :: 0 <= k < l < |pos| ==> pos[k] < pos[l]
  }

  /** Every `#` followed by a word character is listed. */
  ghost predicate CoversTags(text: string, pos: seq<nat>) {
    forall p: nat :: TagAt(text, p) ==> p in pos
  }

  lemma TagStartsMatch(text: string)
    ensures TagsAt(text, TagStarts(text))
  {
    var pos, spans := TagStarts(text), TagSpans(text, 0);
    forall k | 0 <= k < |pos|
      ensures TagAt(text, pos[k]) && ExtractHashtags(text)[k] == Lower(text[pos[k] + 1..RunEnd(text, pos[k] + 1)])
    {
      assert pos[k] + 1 == spans[k].start;
    }
  }

  lemma TagStartsIncreasing(text: string)
    ensures Increasing(TagStarts(text))
  {
    TagSpansOrdered(text, 0);
  }

  lemma TagStartsComplete(text: string)
    ensures CoversTags(text, TagStarts(text))
  {
    var pos := TagStarts(text);
    forall p: nat | TagAt(text, p) ensures p in pos {
      var k := EveryTagIsFound(text, 0, p);
      assert pos[k] == p;
    }
  }

  /** The tags are exactly the lower-cased word runs after each `#`, in the
      order they occur in the text: `pos` holds the position of each `#`. */
  lemma HashtagPositions(text: string) returns (pos: seq<nat>)
    ensures |pos| == |ExtractHashtags(text)|
    ensures TagsAt(text, pos) && Increasing(pos) && CoversTags(text, pos)
  {
    pos := TagStarts(text);
    TagStartsMatch(text);
    TagStartsIncreasing(text);
    TagStartsComplete(text);
  }

  /** Text without a `#` followed by a word character has no tags, and text
      with one has at least one. */
  lemma NoTagsIffNoHashtags(text: string)
    ensures ExtractHashtags(text) == [] <==> !HasTag(text)
  {
    var pos := HashtagPositions(text);
    if ExtractHashtags(text) != [] {
      assert TagAt(text, pos[0]);
    }
  }

  // ---------------------------------------------------------------------------
  // Removing tags
  // ---------------------------------------------------------------------------

  /** `replace(/#[\w]+/g, '')` on `s[i..]`: the same matches, deleted. */
  function RemoveTagsFrom(s: string, i: nat): (r: string)
    requires i <= |s|
    ensures |r| <= |s| - i
    decreases |s| - i
  {
    if i == |s| then []
    else if TagAt(s, i) then RemoveTagsFrom(s, RunEnd(s, i + 1))
    else [s[i]] + RemoveTagsFrom(s, i + 1)
  }

  function RemoveTags(s: string): string {
    RemoveTagsFrom(s, 0)
  }

  /** What is left after a removal starts with no word character, when the
      removal starts there. */
  lemma {:induction false} RemovalStartsClean(s: string, i: nat)
    requires i <= |s| && (i == |s| || !IsWordChar(s[i]))
    ensures RemoveTagsFrom(s, i) == [] || !IsWordChar(RemoveTagsFrom(s, i)[0])
    decreases |s| - i
  {
    if i < |s| && TagAt(s, i) {
      RemovalStartsClean(s, RunEnd(s, i + 1));
    }
  }

  /** Putting a character in front of tagless text creates no tag unless it
      is a `#` put before a word character. */
  lemma ConsKeepsTagless(c: char, rest: string)
    requires !HasTag(rest)
    requires c == '#' && rest != [] ==> !IsWordChar(rest[0])
    ensures !HasTag([c] + rest)
  {
    var r := [c] + rest;
    forall p: nat ensures !TagAt(r, p) {
      if p > 0 && p + 1 < |r| {
        assert !TagAt(rest, p - 1);
        assert r[p] == rest[p - 1] && r[p + 1] == rest[p];
      }
    }
  }

  /** Removal leaves no tag behind: a `#` that stays was not followed by a
      word character, and a removed run is followed by none either. */
  lemma {:induction false} RemovalLeavesNoTag(s: string, i: nat)
    requires i <= |s|
    ensures !HasTag(RemoveTagsFrom(s, i))
    decreases |s| - i
  {
    if i < |s| {
      if TagAt(s, i) {
        RemovalLeavesNoTag(s, RunEnd(s, i + 1));
      } else {
        RemovalLeavesNoTag(s, i + 1);
        if s[i] == '#' {
          RemovalStartsClean(s, i + 1);
        }
        ConsKeepsTagless(s[i], RemoveTagsFrom(s, i + 1));
      }
    }
  }

  /** Text without tags is left as it is. */
  lemma {:induction false} RemovalKeepsTagless(s: string, i: nat)
    requires i <= |s| && !HasTag(s)
    ensures RemoveTagsFrom(s, i) == s[i..]
    decreases |s| - i
  {
    if i < |s| {
      assert !TagAt(s, i);
      RemovalKeepsTagless(s, i + 1);
      assert s[i..] == [s[i]] + s[i + 1..];
    }
  }

  /** Removing the tags twice removes nothing more. */
  lemma RemoveTagsIdempotent(s: string)
    ensures RemoveTags(RemoveTags(s)) == RemoveTags(s)
  {
    RemovalLeavesNoTag(s, 0);
    RemovalKeepsTagless(RemoveTags(s), 0);
  }

  /** Position `p` lies in a match the scan from `i` finds: the `#` or the
      word run after it. */
  ghost predicate InTag(s: string, i: nat, p: nat)
    requires i <= |s|
  {
    exists k :: 0 <= k < |TagSpans(s, i)| && TagSpans(s, i)[k].start - 1 <= p < TagSpans(s, i)[k].end
  }

  /** The scan from a match at `i` finds that match, then what the scan from
      its end finds. */
  lemma SpansAfterMatch(s: string, i: nat)
    requires TagAt(s, i)
    ensures TagSpans(s, i) == [Span(i + 1, RunEnd(s, i + 1))] + TagSpans(s, RunEnd(s, i + 1))
  {
  }

  /** The positions of a match at `i`, its `#` included, are in it. */
  lemma InFirstMatch(s: string, i: nat, p: nat)
    requires TagAt(s, i) && i <= p < RunEnd(s, i + 1)
    ensures InTag(s, i, p)
  {
    SpansAfterMatch(s, i);
    assert TagSpans(s, i)[0].start - 1 <= p < TagSpans(s, i)[0].end;
  }

  /** Past a match at `i`, a position in a match the scan from its end finds
      is in one the scan from `i` finds. */
  lemma InLaterMatch(s: string, i: nat, p: nat, k: nat)
    requires TagAt(s, i)
    requires k < |TagSpans(s, RunEnd(s, i + 1))|
    requires TagSpans(s, RunEnd(s, i + 1))[k].start - 1 <= p < TagSpans(s, RunEnd(s, i + 1))[k].end
    ensures InTag(s, i, p)
  {
    SpansAfterMatch(s, i);
    assert TagSpans(s, i)[k + 1] == TagSpans(s, RunEnd(s, i + 1))[k];
  }

  /** Past a match at `i`, a position in a later match the scan from `i`
      finds is in one the scan from the match's end finds. */
  lemma InEarlierScan(s: string, i: nat, p: nat, k: nat)
    requires TagAt(s, i) && RunEnd(s, i + 1) <= p
    requires k < |TagSpans(s, i)|
    requires TagSpans(s, i)[k].start - 1 <= p < TagSpans(s, i)[k].end
    ensures InTag(s, RunEnd(s, i + 1), p)
  {
    SpansAfterMatch(s, i);
    assert k > 0;
    assert TagSpans(s, i)[k] == TagSpans(s, RunEnd(s, i + 1))[k - 1];
  }

  /** Where no match starts at `i`, the position `i` is in none, and the scan
      from `i` finds the matches the scan from `i + 1` finds. */
  lemma InTagSkip(s: string, i: nat)
    requires i < |s| && !TagAt(s, i)
    ensures TagSpans(s, i) == TagSpans(s, i + 1)
    ensures !InTag(s, i, i)
  {
  }

  /** `idx` lists, in increasing order, where each character that survives
      removal from `i` on was, and these are exactly the positions from `i`
      on outside every match. */
  ghost predicate KeptOutside(s: string, i: nat, idx: seq<nat>)
    requires i <= |s|
  {
    && |idx| == |RemoveTagsFrom(s, i)|
    && (forall k :: 0 <= k < |idx| ==>
          i <= idx[k] < |s| && RemoveTagsFrom(s, i)[k] == s[idx[k]] && !InTag(s, i, idx[k]))
    && (forall k, l :: 0 <= k < l < |idx| ==> idx[k] < idx[l])
    && (forall p: nat :: i <= p < |s| && !InTag(s, i, p) ==> p in idx)
  }

  lemma MatchStep(s: string, i: nat, idx: seq<nat>)
    requires i < |s| && TagAt(s, i)
    requires KeptOutside(s, RunEnd(s, i + 1), idx)
    ensures KeptOutside(s, i, idx)
  {
    var e := RunEnd(s, i + 1);
    assert RemoveTagsFrom(s, i) == RemoveTagsFrom(s, e);
    forall p: nat | i <= p < e
      ensures InTag(s, i, p)
    {
      InFirstMatch(s, i, p);
    }
    forall p: nat | e <= p < |s|
      ensures InTag(s, i, p) <==> InTag(s, e, p)
    {
      if InTag(s, e, p) {
        var k :| 0 <= k < |TagSpans(s, e)| && TagSpans(s, e)[k].start - 1 <= p < TagSpans(s, e)[k].end;
        InLaterMatch(s, i, p, k);
      }
      if InTag(s, i, p) {
        var k :| 0 <= k < |TagSpans(s, i)| && TagSpans(s, i)[k].start - 1 <= p < TagSpans(s, i)[k].end;
        InEarlierScan(s, i, p, k);
      }
    }
  }

  /** Skipping a non-match at `i`: the kept characters gain `s[i]` in front. */
  lemma SkipKeepsChars(s: string, i: nat, idx: seq<nat>, rest: string)
    requires i < |s| && TagSpans(s, i) == TagSpans(s, i + 1) && !InTag(s, i, i)
    requires |idx| == |rest|
    requires forall k :: 0 <= k < |idx| ==>
      i + 1 <= idx[k] < |s| && rest[k] == s[idx[k]] && !InTag(s, i + 1, idx[k])
    ensures forall k :: 0 <= k < |[i] + idx| ==>
      i <= ([i] + idx)[k] < |s| && ([s[i]] + rest)[k] == s[([i] + idx)[k]] && !InTag(s, i, ([i] + idx)[k])
  {
    var idx', r := [i] + idx, [s[i]] + rest;
    forall k | 0 <= k < |idx'|
      ensures i <= idx'[k] < |s| && r[k] == s[idx'[k]] && !InTag(s, i, idx'[k])
    {
      if k > 0 {
        assert idx'[k] == idx[k - 1] && r[k] == rest[k - 1];
      }
    }
  }

  /** A position below every listed one keeps the list increasing in front. */
  lemma PrependIncreasing(i: nat, idx: seq<nat>)
    requires forall k :: 0 <= k < |idx| ==> i < idx[k]
    requires forall k, l :: 0 <= k < l < |idx| ==> idx[k] < idx[l]
    ensures forall k, l :: 0 <= k < l < |[i] + idx| ==> ([i] + idx)[k] < ([i] + idx)[l]
  {
    var idx' := [i] + idx;
    forall k, l | 0 <= k < l < |idx'| ensures idx'[k] < idx'[l] {
      assert idx'[l] == idx[l - 1];
      if k > 0 {
        assert idx'[k] == idx[k - 1];
      }
    }
  }

  /** Skipping a non-match at `i`: every position outside the matches is
      still listed once `i` is put in front. */
  lemma SkipCovers(s: string, i: nat, idx: seq<nat>)
    requires i < |s| && TagSpans(s, i) == TagSpans(s, i + 1)
    requires forall p: nat :: i + 1 <= p < |s| && !InTag(s, i + 1, p) ==> p in idx
    ensures forall p: nat :: i <= p < |s| && !InTag(s, i, p) ==> p in [i] + idx
  {
    forall p: nat | i <= p < |s| && !InTag(s, i, p) ensures p in [i] + idx {
      if p > i {
        assert !InTag(s, i + 1, p);
      }
    }
  }

  lemma SkipStep(s: string, i: nat, idx: seq<nat>)
    requires i < |s| && !TagAt(s, i)
    requires KeptOutside(s, i + 1, idx)
    ensures KeptOutside(s, i, [i] + idx)
  {
    InTagSkip(s, i);
    var rest := RemoveTagsFrom(s, i + 1);
    assert RemoveTagsFrom(s, i) == [s[i]] + rest;
    SkipKeepsChars(s, i, idx, rest);
    PrependIncreasing(i, idx);
    SkipCovers(s, i, idx);
  }

  /** Removal keeps exactly the characters outside the matches that
      `TagSpans` finds, in their order. */
  lemma {:induction false} RemovalKeepsOutsideTags(s: string, i: nat) returns (idx: seq<nat>)
    requires i <= |s|
    ensures KeptOutside(s, i, idx)
    decreases |s| - i
  {
    if i == |s| {
      idx := [];
    } else if TagAt(s, i) {
      idx := RemovalKeepsOutsideTags(s, RunEnd(s, i + 1));
      MatchStep(s, i, idx);
    } else {
      var rest := RemovalKeepsOutsideTags(s, i + 1);
      SkipStep(s, i, rest);
      idx := [i] + rest;
    }
  }

  /** A slice of tagless text is tagless. */
  lemma SliceKeepsTagless(s: string, a: nat, b: nat)
    requires a <= b <= |s| && !HasTag(s)
    ensures !HasTag(s[a..b])
  {
    forall p: nat ensures !TagAt(s[a..b], p) {
      if TagAt(s[a..b], p) {
        assert TagAt(s, a + p);
      }
    }
  }

  // ---------------------------------------------------------------------------
  // Collapsing whitespace
  // ---------------------------------------------------------------------------

  /** Every whitespace character is a plain space, and none follows another. */
  predicate SingleSpaced(s: string) {
    forall k :: 0 <= k < |s| && IsSpace(s[k]) ==> s[k] == ' ' && (k + 1 == |s| || !IsSpace(s[k + 1]))
  }

  /** `replace(/\s+/g, ' ')`: each maximal whitespace run becomes one space. */
  function CollapseSpaces(s: string): (r: string)
    ensures |r| <= |s|
    ensures s != [] ==> r != [] && r[0] == (if IsSpace(s[0]) then ' ' else s[0])
    decreases |s|
  {
    if s == [] then []
    else if IsSpace(s[0]) then [' '] + CollapseSpaces(TrimStart(s[1..]))
    else [s[0]] + CollapseSpaces(s[1..])
  }

  /** Putting a character in front of single-spaced text keeps it so, unless
      it is whitespace other than a space, or whitespace before whitespace. */
  lemma ConsKeepsSingleSpaced(c: char, rest: string)
    requires SingleSpaced(rest)
    requires IsSpace(c) ==> c == ' ' && (rest == [] || !IsSpace(rest[0]))
    ensures SingleSpaced([c] + rest)
  {
    var r := [c] + rest;
    forall k | 0 < k < |r| && IsSpace(r[k]) ensures r[k] == ' ' && (k + 1 == |r| || !IsSpace(r[k + 1])) {
      assert r[k] == rest[k - 1];
      if k + 1 < |r| {
        assert r[k + 1] == rest[k];
      }
    }
  }

  /** The collapsed text has single spaces only. */
  lemma {:induction false} CollapseIsSingleSpaced(s: string)
    ensures SingleSpaced(CollapseSpaces(s))
    decreases |s|
  {
    if s != [] {
      var t := if IsSpace(s[0]) then TrimStart(s[1..]) else s[1..];
      CollapseIsSingleSpaced(t);
      ConsKeepsSingleSpaced(CollapseSpaces(s)[0], CollapseSpaces(t));
    }
  }

  /** A suffix of tagless text is tagless. */
  lemma SuffixKeepsTagless(s: string, k: nat)
    requires k <= |s| && !HasTag(s)
    ensures !HasTag(s[k..])
  {
    SliceKeepsTagless(s, k, |s|);
    assert s[k..|s|] == s[k..];
  }

  /** Collapsing creates no tag: it only turns whitespace into spaces and
      drops whitespace next to whitespace. */
  lemma {:induction false} CollapseKeepsTagless(s: string)
    requires !HasTag(s)
    ensures !HasTag(CollapseSpaces(s))
    decreases |s|
  {
    if s != [] {
      var t := if IsSpace(s[0]) then TrimStart(s[1..]) else s[1..];
      SuffixKeepsTagless(s, 1);
      if IsSpace(s[0]) {
        SuffixKeepsTagless(s[1..], |s| - 1 - |t|);
      }
      CollapseKeepsTagless(t);
      var rest := CollapseSpaces(t);
      if s[0] == '#' && rest != [] {
        assert !TagAt(s, 0) && t[0] == s[1];
        assert !IsWordChar(' ');
      }
      ConsKeepsTagless(CollapseSpaces(s)[0], rest);
    }
  }

  /** Text that is already single-spaced is left as it is. */
  lemma {:induction false} CollapseKeepsSingleSpaced(s: string)
    requires SingleSpaced(s)
    ensures CollapseSpaces(s) == s
    decreases |s|
  {
    if s != [] {
      assert SingleSpaced(s[1..]);
      if IsSpace(s[0]) {
        assert TrimStart(s[1..]) == s[1..];
      }
      CollapseKeepsSingleSpaced(s[1..]);
    }
  }

  /** Leading whitespace followed by text starting with a non-space trims
      to that text. */
  lemma {:induction false} TrimStartSpaces(w: string, y: string)
    requires forall i :: 0 <= i < |w| ==> IsSpace(w[i])
    requires y == [] || !IsSpace(y[0])
    ensures TrimStart(w + y) == y
  {
    if w != [] {
      assert (w + y)[1..] == w[1..] + y;
      TrimStartSpaces(w[1..], y);
    }
  }

  /** Trimming the start of text that has a non-space stops inside it. */
  lemma TrimStartAppend(a: string, b: string)
    requires TrimStart(a) != []
    ensures TrimStart(a + b) == TrimStart(a) + b
  {
    var k := |a| - |TrimStart(a)|;
    SplitAt(a, b, k);
    TrimStartSpaces(a[..k], a[k..] + b);
  }

  /** Cutting `a` at `k` before appending `b`. */
  lemma SplitAt(a: string, b: string, k: nat)
    requires k <= |a|
    ensures a + b == a[..k] + (a[k..] + b)
  {
    assert a == a[..k] + a[k..];
  }

  /** The first character and the rest of `x + z`, for non-empty `x`. */
  lemma ConsSplit(x: string, z: string)
    requires x != []
    ensures (x + z)[0] == x[0] && (x + z)[1..] == x[1..] + z
  {
  }

  /** The collapse of a text starting with whitespace, in terms of the
      collapse of the rest after that run. */
  lemma CollapseSpaceStep(x: string, z: string)
    requires x != [] && IsSpace(x[0]) && TrimStart(x[1..]) != []
    ensures CollapseSpaces(x + z) == [' '] + CollapseSpaces(TrimStart(x[1..]) + z)
    ensures CollapseSpaces(x) == [' '] + CollapseSpaces(TrimStart(x[1..]))
  {
    ConsSplit(x, z);
    TrimStartAppend(x[1..], z);
  }

  /** The collapse of a text starting with a non-space, in terms of the
      collapse of the rest. */
  lemma CollapseWordStep(x: string, z: string)
    requires x != [] && !IsSpace(x[0])
    ensures CollapseSpaces(x + z) == [x[0]] + CollapseSpaces(x[1..] + z)
    ensures CollapseSpaces(x) == [x[0]] + CollapseSpaces(x[1..])
  {
    ConsSplit(x, z);
  }

  /** A text ending in a non-space keeps that ending when its first
      character, or its leading whitespace after that, is dropped. */
  lemma LastKept(x: string)
    requires x != [] && !IsSpace(x[|x| - 1])
    ensures x[1..] == [] || !IsSpace(x[1..][|x[1..]| - 1])
    ensures IsSpace(x[0]) ==> TrimStart(x[1..]) != [] && !IsSpace(TrimStart(x[1..])[|TrimStart(x[1..])| - 1])
  {
    if x[1..] != [] {
      assert x[1..][|x[1..]| - 1] == x[|x| - 1];
    }
  }

  /** Concatenation is associative. */
  lemma AppendAssoc(a: string, b: string, c: string)
    ensures a + (b + c) == a + b + c
  {
  }

  /** Text ending in a non-space collapses on its own: nothing after it
      joins its last run. */
  lemma {:induction false} CollapseAppend(x: string, z: string)
    requires x == [] || !IsSpace(x[|x| - 1])
    ensures CollapseSpaces(x + z) == CollapseSpaces(x) + CollapseSpaces(z)
    decreases |x|
  {
    if x == [] {
      assert x + z == z;
    } else if IsSpace(x[0]) {
      LastKept(x);
      CollapseSpaceStep(x, z);
      CollapseAppend(TrimStart(x[1..]), z);
      AppendAssoc([' '], CollapseSpaces(TrimStart(x[1..])), CollapseSpaces(z));
    } else {
      LastKept(x);
      CollapseWordStep(x, z);
      CollapseAppend(x[1..], z);
      AppendAssoc([x[0]], CollapseSpaces(x[1..]), CollapseSpaces(z));
    }
  }

  /** A leading whitespace run collapses to one space. */
  lemma CollapseLeadingRun(w: string, y: string)
    requires w != [] && forall i :: 0 <= i < |w| ==> IsSpace(w[i])
    requires y == [] || !IsSpace(y[0])
    ensures CollapseSpaces(w + y) == " " + CollapseSpaces(y)
  {
    assert (w + y)[0] == w[0];
    assert (w + y)[1..] == w[1..] + y;
    TrimStartSpaces(w[1..], y);
  }

  /** Each whitespace run becomes exactly one space: a run `w` between text
      `x` that does not end in whitespace and text `y` that does not start
      with it collapses to a single `' '` between the collapsed sides. */
  lemma CollapseRun(x: string, w: string, y: string)
    requires w != [] && forall i :: 0 <= i < |w| ==> IsSpace(w[i])
    requires x == [] || !IsSpace(x[|x| - 1])
    requires y == [] || !IsSpace(y[0])
    ensures CollapseSpaces(x + w + y) == CollapseSpaces(x) + " " + CollapseSpaces(y)
  {
    AppendAssoc(x, w, y);
    CollapseAppend(x, w + y);
    CollapseLeadingRun(w, y);
    AppendAssoc(CollapseSpaces(x), " ", CollapseSpaces(y));
  }

  predicate NonSpace(c: char) {
    !IsSpace(c)
  }

  /** Dropping leading whitespace keeps the non-whitespace text. */
  lemma {:induction false} SkipSpacesKeepsWords(t: string, k: nat)
    requires k <= |t| && forall i :: 0 <= i < k ==> IsSpace(t[i])
    ensures Filter(t[k..], NonSpace) == Filter(t, NonSpace)
  {
    if k > 0 {
      SkipSpacesKeepsWords(t[1..], k - 1);
      assert t[1..][k - 1..] == t[k..];
    }
  }

  /** Collapsing whitespace keeps every non-whitespace character, in order:
      only whitespace is dropped or replaced. */
  lemma {:induction false} CollapseKeepsWords(s: string)
    ensures Filter(CollapseSpaces(s), NonSpace) == Filter(s, NonSpace)
    decreases |s|
  {
    if s != [] {
      var r := CollapseSpaces(s);
      if IsSpace(s[0]) {
        var t := TrimStart(s[1..]);
        CollapseKeepsWords(t);
        assert r[1..] == CollapseSpaces(t);
        SkipSpacesKeepsWords(s[1..], |s[1..]| - |t|);
      } else {
        CollapseKeepsWords(s[1..]);
        assert r[1..] == CollapseSpaces(s[1..]);
      }
    }
  }

  /** A slice of single-spaced text is single-spaced. */
  lemma SliceKeepsSingleSpaced(s: string, a: nat, b: nat)
    requires a <= b <= |s| && SingleSpaced(s)
    ensures SingleSpaced(s[a..b])
  {
    forall k | 0 <= k < b - a && IsSpace(s[a..b][k])
      ensures s[a..b][k] == ' ' && (k + 1 == b - a || !IsSpace(s[a..b][k + 1]))
    {
      assert s[a..b][k] == s[a + k];
    }
  }

  // ---------------------------------------------------------------------------
  // The member description
  // ---------------------------------------------------------------------------

  /** The description built from a post's content: tags removed and trimmed,
      whitespace runs collapsed and trimmed again, and text over 400
      characters cut to 400 plus "...". */
  function CleanDescription(content: string): string {
    CapLength(Trim(CollapseSpaces(Trim(RemoveTags(content)))))
  }

  /** Text over 400 characters becomes its first 400 plus "...". */
  function CapLength(d: string): (r: string)
    ensures |r| <= 403
    ensures |d| <= 400 ==> r == d
    ensures |d| > 400 ==> |r| == 403 && r[..400] == d[..400] && r[400..] == "..."
  {
    if |d| > 400 then d[..400] + "..." else d
  }

  /** A description is clean: no tag, no whitespace at either end, single
      spaces only. */
  ghost predicate Clean(d: string) {
    && !HasTag(d)
    && SingleSpaced(d)
    && (d != [] ==> !IsSpace(d[0]) && !IsSpace(d[|d| - 1]))
  }

  /** Trimming tagless text leaves it tagless. */
  lemma TrimKeepsTagless(s: string)
    requires !HasTag(s)
    ensures !HasTag(Trim(s))
  {
    var a := TrimIsSlice(s);
    var t := Trim(s);
    forall p: nat ensures !TagAt(t, p) {
      if TagAt(t, p) {
        assert t[p] == s[a + p] && t[p + 1] == s[a + p + 1];
        assert TagAt(s, a + p);
      }
    }
  }

  /** Trimming single-spaced text leaves it single-spaced. */
  lemma TrimKeepsSingleSpaced(s: string)
    requires SingleSpaced(s)
    ensures SingleSpaced(Trim(s))
  {
    var a := TrimIsSlice(s);
    SliceKeepsSingleSpaced(s, a, a + |Trim(s)|);
  }

  /** Trimming tagless, single-spaced text keeps it so, and leaves it clean. */
  lemma TrimKeepsClean(s: string)
    requires !HasTag(s) && SingleSpaced(s)
    ensures Clean(Trim(s))
  {
    TrimKeepsTagless(s);
    TrimKeepsSingleSpaced(s);
  }

  /** Capping the length of a clean text keeps it clean. */
  lemma CapKeepsClean(d: string)
    requires Clean(d)
    ensures Clean(CapLength(d))
  {
    if |d| <= 400 {
      return;
    }
    var r := d[..400] + "...";
    SliceKeepsTagless(d, 0, 400);
    forall p: nat ensures !TagAt(r, p) {
      if p + 1 < |r| && p < 399 {
        assert !TagAt(d[..400], p);
      }
    }
    forall k | 0 <= k < |r| && IsSpace(r[k])
      ensures r[k] == ' ' && (k + 1 == |r| || !IsSpace(r[k + 1]))
    {
      if k < 399 {
        assert r[k] == d[k] && r[k + 1] == d[k + 1];
      } else if k == 399 {
        assert r[k] == d[k];
      }
    }
  }

  /** The description before the cut is clean. */
  lemma CollapsedIsClean(content: string)
    ensures Clean(Trim(CollapseSpaces(Trim(RemoveTags(content)))))
  {
    var t := Trim(RemoveTags(content));
    RemovalLeavesNoTag(content, 0);
    TrimKeepsTagless(RemoveTags(content));
    CollapseKeepsTagless(t);
    CollapseIsSingleSpaced(t);
    TrimKeepsClean(CollapseSpaces(t));
  }

  /** Every description is clean and at most 403 characters long; a long one
      ends in "..." after its first 400 characters. */
  lemma CleanDescriptionShape(content: string)
    ensures |CleanDescription(content)| <= 403
    ensures Clean(CleanDescription(content))
    ensures |CleanDescription(content)| > 400 ==> CleanDescription(content)[400..] == "..."
  {
    var d := Trim(CollapseSpaces(Trim(RemoveTags(content))));
    assert CleanDescription(content) == CapLength(d);
    CollapsedIsClean(content);
    CapKeepsClean(d);
  }

  /** Cleaning a clean description of at most 400 characters changes nothing. */
  lemma CleanIsFixed(d: string)
    requires Clean(d) && |d| <= 400
    ensures CleanDescription(d) == d
  {
    RemovalKeepsTagless(d, 0);
    TrimmedIsFixed(d);
    CollapseKeepsSingleSpaced(d);
  }

  /** Cleaning is idempotent: a cleaned description, even a cut one, is its
      own cleaning. */
  lemma CleanDescriptionIdempotent(content: string)
    ensures CleanDescription(CleanDescription(content)) == CleanDescription(content)
  {
    var d := CleanDescription(content);
    CleanDescriptionShape(content);
    RemovalKeepsTagless(d, 0);
    TrimmedIsFixed(d);
    CollapseKeepsSingleSpaced(d);
    if |d| > 400 {
      assert d[..400] + d[400..] == d;
    }
  }
}
