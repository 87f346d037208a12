/** The member-post feed service (src/utils/BrightDataService.ts): call the
    scraping function, merge its posts before the fallback posts, drop
    duplicates, and sort the survivors newest first. */
module BrightData {
  import opened Common
  import opened Text
  import opened PostModel
  import opened FallbackPosts

  // ---------------------------------------------------------------------------
  // Merge and dedup
  // ---------------------------------------------------------------------------

  /** `[...(data?.posts || []), ...fallbackMemberPosts]`. */
  function Merge(scraped: Option<seq<Post>>, fallback: seq<Post>): (all: seq<Post>)
    ensures |all| == |scraped.GetOr([])| + |fallback|
    ensures all[..|scraped.GetOr([])|] == scraped.GetOr([]) && all[|scraped.GetOr([])|..] == fallback
  {
    scraped.GetOr([]) + fallback
  }

  /** The dedup's notion of "the same post": the same member name (two
      absent names are equal), or the same first 100 characters of content. */
  predicate Dup(p: Post, q: Post) {
    p.memberName == q.memberName || Take(p.content, 100) == Take(q.content, 100)
  }

  /** `arr.findIndex((p) => Dup(p, post))`: the first position holding a
      duplicate of `post`, or -1. */
  function FindDup(arr: seq<Post>, post: Post): (r: int)
    ensures -1 <= r < |arr|
    ensures r >= 0 ==> Dup(arr[r], post) && forall j :: 0 <= j < r ==> !Dup(arr[j], post)
    ensures r == -1 ==> forall j :: 0 <= j < |arr| ==> !Dup(arr[j], post)
  {
    if arr == [] then -1
    else if Dup(arr[0], post) then 0
    else
      var r := FindDup(arr[1..], post);
      if r == -1 then -1 else r + 1
  }

  /** The filter's test: position `i` is where the first duplicate of
      `arr[i]` sits. */
  predicate Kept(arr: seq<Post>, i: nat)
    requires i < |arr|
  {
    FindDup(arr, arr[i]) == i
  }

  /** The filter's test as a callback over (post, index). */
  function KeptAt(arr: seq<Post>): (Post, nat) -> bool {
    (p: Post, i: nat) => i < |arr| && Kept(arr, i)
  }

  function Itself(): (Post, nat) -> Post {
    (p: Post, i: nat) => p
  }

  /** `allPosts.filter((post, index, arr) => arr.findIndex(...) === index)`,
      written as the filter over the first `n` positions. */
  function DedupPrefix(arr: seq<Post>, n: nat): seq<Post>
    requires n <= |arr|
  {
    Pushed(arr, n, KeptAt(arr), Itself())
  }

  function Dedup(arr: seq<Post>): seq<Post> {
    DedupPrefix(arr, |arr|)
  }

  /** A post is kept exactly when no earlier post duplicates it (every post
      duplicates itself, so the first duplicate is never later). */
  lemma KeptIff(arr: seq<Post>, i: nat)
    requires i < |arr|
    ensures Kept(arr, i) <==> forall j :: 0 <= j < i ==> !Dup(arr[j], arr[i])
  {
    assert Dup(arr[i], arr[i]);
  }

  /** The dedup keeps an order-preserving selection of the merged list:
      `idx` lists the positions kept, increasing, and holds every kept
      position. */
  lemma DedupPositions(arr: seq<Post>, n: nat) returns (idx: seq<nat>)
    requires n <= |arr|
    ensures SubsequenceWith(DedupPrefix(arr, n), arr, idx)
    ensures forall k :: 0 <= k < |idx| ==> idx[k] < n && Kept(arr, idx[k])
    ensures forall i :: 0 <= i < n && Kept(arr, i) ==> i in idx
  {
    idx := PushedPositions(arr, n, KeptAt(arr), Itself());
    forall i | 0 <= i < n && Kept(arr, i) ensures i in idx {
      assert KeptAt(arr)(arr[i], i);
    }
  }

  /** No two kept posts duplicate each other. */
  lemma DedupPairwiseDistinct(arr: seq<Post>)
    ensures forall k, l :: 0 <= k < l < |Dedup(arr)| ==> !Dup(Dedup(arr)[k], Dedup(arr)[l])
  {
    var idx := DedupPositions(arr, |arr|);
    var r := Dedup(arr);
    forall k, l | 0 <= k < l < |r| ensures !Dup(r[k], r[l]) {
      KeptIff(arr, idx[l]);
    }
  }

  /** Every post that was dropped duplicates an earlier post of the merged
      list, so nothing is dropped for no reason. */
  lemma DroppedHasEarlierDup(arr: seq<Post>, i: nat)
    requires i < |arr| && !Kept(arr, i)
    ensures exists j :: 0 <= j < i && Dup(arr[j], arr[i])
  {
    KeptIff(arr, i);
  }

  /** A non-empty list always keeps its first post, in first place. */
  lemma DedupKeepsFirst(arr: seq<Post>)
    requires arr != []
    ensures Dedup(arr) != [] && Dedup(arr)[0] == arr[0]
  {
    var idx := DedupPositions(arr, |arr|);
    KeptIff(arr, 0);
    assert 0 in idx;
    assert idx[0] == 0;
  }

  /** Posts without a member name all duplicate one another: at most one of
      them survives. */
  lemma AtMostOneUnnamed(arr: seq<Post>)
    ensures forall k, l :: 0 <= k < l < |Dedup(arr)| ==>
      Dedup(arr)[k].memberName.Some? || Dedup(arr)[l].memberName.Some?
  {
    DedupPairwiseDistinct(arr);
  }

  /** Duplicates are judged against every earlier post, dropped ones
      included: a post that duplicates only a dropped post is dropped too,
      though it duplicates nothing that is kept. */
  lemma DropCascades()
    ensures
      var a := Post("1", "x", "", "", General, "", Some("A"), None, None);
      var b := Post("2", "x", "", "", General, "", Some("B"), None, None);
      var c := Post("3", "y", "", "", General, "", Some("B"), None, None);
      && Dedup([a, b, c]) == [a]
      && !Dup(a, c)
  {
    var a := Post("1", "x", "", "", General, "", Some("A"), None, None);
    var b := Post("2", "x", "", "", General, "", Some("B"), None, None);
    var c := Post("3", "y", "", "", General, "", Some("B"), None, None);
    var arr := [a, b, c];
    assert Kept(arr, 0) by { KeptIff(arr, 0); }
    assert !Kept(arr, 1) by { KeptIff(arr, 1); assert Dup(arr[0], arr[1]); }
    assert !Kept(arr, 2) by { KeptIff(arr, 2); assert Dup(arr[1], arr[2]); }
    assert DedupPrefix(arr, 1) == [a];
    assert DedupPrefix(arr, 2) == [a];
    assert Take("x", 100) == "x" && Take("y", 100) == "y";
  }

  /** The dedup changes nothing when no two posts are duplicates. */
  lemma {:induction false} DedupIdentity(arr: seq<Post>, n: nat)
    requires n <= |arr|
    requires forall j, i :: 0 <= j < i < |arr| ==> !Dup(arr[j], arr[i])
    ensures DedupPrefix(arr, n) == arr[..n]
  {
    if n > 0 {
      DedupIdentity(arr, n - 1);
      KeptIff(arr, n - 1);
      assert KeptAt(arr)(arr[n - 1], n - 1);
      PushedNext(arr, n - 1, KeptAt(arr), Itself());
      assert arr[..n] == arr[..n - 1] + [arr[n - 1]];
    }
  }

  /** Posts with pairwise different member names and pairwise different
      first 100 characters all survive the dedup, in their order. */
  lemma DistinctPostsSurvive(arr: seq<Post>)
    requires forall i, j :: 0 <= i < j < |arr| ==> arr[i].memberName != arr[j].memberName
    requires forall i, j :: 0 <= i < j < |arr| ==> Take(arr[i].content, 100) != Take(arr[j].content, 100)
    ensures Dedup(arr) == arr
  {
    DedupIdentity(arr, |arr|);
    assert arr[..|arr|] == arr;
  }

  /** With nothing scraped, all nine fallback posts survive the dedup: their
      member names differ, and so do their first 100 characters. */
  lemma FallbackSurvivesDedup()
    ensures Dedup(Merge(None, FallbackMemberPosts)) == FallbackMemberPosts
  {
    FallbackNamesDistinct();
    FallbackOpeningsDistinct();
    DistinctPostsSurvive(FallbackMemberPosts);
  }

  // ---------------------------------------------------------------------------
  // Sort newest first
  // ---------------------------------------------------------------------------

  /** Dates are compared through `dateKey`, which stands for
      `new Date(date).getTime()`. */
  ghost predicate NewestFirst(s: seq<Post>, dateKey: string -> int) {
    forall i, j :: 0 <= i < j < |s| ==> dateKey(s[i].date) >= dateKey(s[j].date)
  }

  /** `uniquePosts.sort((a, b) => time(b) - time(a))`, in place: an insertion
      sort that moves each post left past the older ones. */
  method SortNewestFirst(a: array<Post>, dateKey: string -> int)
    modifies a
    ensures NewestFirst(a[..], dateKey)
    ensures multiset(a[..]) == multiset(old(a[..]))
  {
    if a.Length < 2 {
      return;
    }
    var i := 1;
    while i < a.Length
      invariant 1 <= i <= a.Length
      invariant NewestFirst(a[..i], dateKey)
      invariant multiset(a[..]) == multiset(old(a[..]))
    {
      InsertLeft(a, i, dateKey);
      i := i + 1;
    }
    assert a[..i] == a[..];
  }

  /** One pass of the insertion sort: `a[..i]` is newest first; move `a[i]`
      left past the older posts, so that `a[..i + 1]` is newest first. */
  method InsertLeft(a: array<Post>, i: nat, dateKey: string -> int)
    requires i < a.Length
    requires NewestFirst(a[..i], dateKey)
    modifies a
    ensures NewestFirst(a[..i + 1], dateKey)
    ensures multiset(a[..i + 1]) == multiset(old(a[..i + 1]))
    ensures a[i + 1..] == old(a[i + 1..])
    ensures multiset(a[..]) == multiset(old(a[..]))
  {
    var j := i;
    while j > 0 && dateKey(a[j - 1].date) < dateKey(a[j].date)
      invariant 0 <= j <= i
      invariant OrderedAround(a[..], i, j, dateKey)
      invariant multiset(a[..i + 1]) == multiset(old(a[..i + 1]))
      invariant a[i + 1..] == old(a[i + 1..])
    {
      ghost var before := a[..];
      a[j - 1], a[j] := a[j], a[j - 1];
      assert a[..] == before[j - 1 := before[j]][j := before[j - 1]];
      SwapWithinPrefix(before, i, j);
      SwapStep(before, i, j, dateKey);
      j := j - 1;
    }
    InsertDone(a[..], i, j, dateKey);
    SplitMultiset(a[..], old(a[..]), i + 1);
  }

  /** Exchanging two neighbours inside the first `i + 1` posts keeps the
      posts of that prefix and leaves the rest alone. */
  lemma SwapWithinPrefix(s: seq<Post>, i: nat, j: nat)
    requires 0 < j <= i < |s|
    ensures multiset(s[j - 1 := s[j]][j := s[j - 1]][..i + 1]) == multiset(s[..i + 1])
    ensures s[j - 1 := s[j]][j := s[j - 1]][i + 1..] == s[i + 1..]
  {
    var t := s[j - 1 := s[j]][j := s[j - 1]];
    assert t[..i + 1] == s[..i + 1][j - 1 := s[j]][j := s[j - 1]];
    SwapKeepsMultiset(s[..i + 1], j - 1, j);
  }

  /** Two sequences with the same posts in their first `n` and the same rest
      hold the same posts. */
  lemma SplitMultiset(s: seq<Post>, t: seq<Post>, n: nat)
    requires n <= |s| == |t|
    requires multiset(s[..n]) == multiset(t[..n]) && s[n..] == t[n..]
    ensures multiset(s) == multiset(t)
  {
    assert s == s[..n] + s[n..];
    assert t == t[..n] + t[n..];
  }

  /** The insertion pass's invariant, with the moving post at `j`: the posts
      up to `i` other than it are newest first, and it is newer than every
      post to its right. */
  ghost predicate OrderedAround(s: seq<Post>, i: nat, j: nat, dateKey: string -> int)
    requires j <= i < |s|
  {
    && (forall k, l :: 0 <= k < l <= i && k != j && l != j ==> dateKey(s[k].date) >= dateKey(s[l].date))
    && (forall l :: j < l <= i ==> dateKey(s[j].date) > dateKey(s[l].date))
  }

  /** Moving the post one place left, past an older one, keeps the invariant. */
  lemma SwapStep(s: seq<Post>, i: nat, j: nat, dateKey: string -> int)
    requires 0 < j <= i < |s|
    requires OrderedAround(s, i, j, dateKey)
    requires dateKey(s[j - 1].date) < dateKey(s[j].date)
    ensures OrderedAround(s[j - 1 := s[j]][j := s[j - 1]], i, j - 1, dateKey)
  {
  }

  /** When the moving post stops, the first `i + 1` posts are newest first. */
  lemma InsertDone(s: seq<Post>, i: nat, j: nat, dateKey: string -> int)
    requires j <= i < |s|
    requires OrderedAround(s, i, j, dateKey)
    requires j == 0 || dateKey(s[j - 1].date) >= dateKey(s[j].date)
    ensures NewestFirst(s[..i + 1], dateKey)
  {
  }

  /** Exchanging two elements keeps the same posts. */
  lemma SwapKeepsMultiset(s: seq<Post>, x: nat, y: nat)
    requires x < y < |s|
    ensures multiset(s[x := s[y]][y := s[x]]) == multiset(s)
  {
    var t := s[x := s[y]][y := s[x]];
    assert s == s[..x] + [s[x]] + s[x + 1..y] + [s[y]] + s[y + 1..];
    assert t == s[..x] + [s[y]] + s[x + 1..y] + [s[x]] + s[y + 1..];
  }

  // ---------------------------------------------------------------------------
  // scrapeLinkedInPosts
  // ---------------------------------------------------------------------------

  /** What the scraping function's invocation gave back: `data` with an
      optional error text and optional posts. */
  datatype Payload = Payload(error: Option<string>, posts: Option<seq<Post>>)

  /** How the call went: no client, an `error` object (with an optional
      message), a response, or a thrown value (an `Error` with its message or
      anything else). */
  datatype Invocation =
    | ClientMissing
    | InvokeError(message: Option<string>)
    | Response(data: Option<Payload>)
    | Threw(isError: bool, thrownMessage: string)

  datatype ScrapeResult = ScrapeResult(success: bool, error: Option<string>, posts: Option<seq<Post>>)

  const NotConfigured := "Supabase client not properly configured"
  const NotDeployed := "Scraping function not deployed. Please ensure the Supabase edge function is properly set up."
  const InvokeFailed := "Failed to invoke scraping function"
  const ConnectFailed := "Failed to connect to scraping service"

  /** `BrightDataService.scrapeLinkedInPosts`, with the network call as the
      given `Invocation`. Failures carry a message and no posts; a response
      without an error yields the deduplicated merge, newest first. */
  method ScrapeLinkedInPosts(inv: Invocation, dateKey: string -> int) returns (res: ScrapeResult)
    ensures res.success <==> inv.Response? && !(inv.data.Some? && Truthy(inv.data.value.error))
    ensures !res.success ==> res.posts.None? && res.error.Some?
    ensures inv.ClientMissing? ==> res.error == Some(NotConfigured)
    ensures inv.InvokeError? ==>
      res.error == Some(if inv.message.Some? && Includes(inv.message.value, "Function not found") then NotDeployed
                        else if Truthy(inv.message) then inv.message.value else InvokeFailed)
    ensures inv.Response? && inv.data.Some? && Truthy(inv.data.value.error) ==> res.error == inv.data.value.error
    ensures inv.Threw? ==> res.error == Some(if inv.isError then inv.thrownMessage else ConnectFailed)
    ensures res.success ==>
              && res.error.None? && res.posts.Some?
              && NewestFirst(res.posts.value, dateKey)
              && multiset(res.posts.value)
                 == multiset(Dedup(Merge(if inv.data.Some? then inv.data.value.posts else None, FallbackMemberPosts)))
  {
    match inv
    case ClientMissing =>
      res := ScrapeResult(false, Some(NotConfigured), None);
    case Threw(isError, message) =>
      res := ScrapeResult(false, Some(if isError then message else ConnectFailed), None);
    case InvokeError(message) =>
      if message.Some? && Includes(message.value, "Function not found") {
        res := ScrapeResult(false, Some(NotDeployed), None);
      } else {
        res := ScrapeResult(false, Some(if Truthy(message) then message.value else InvokeFailed), None);
      }
    case Response(data) =>
      if data.Some? && Truthy(data.value.error) {
        res := ScrapeResult(false, data.value.error, None);
      } else {
        var scraped := if data.Some? then data.value.posts else None;
        var unique := Dedup(Merge(scraped, FallbackMemberPosts));
        var a := new Post[|unique|](i requires 0 <= i < |unique| => unique[i]);
        assert a[..] == unique;
        SortNewestFirst(a, dateKey);
        res := ScrapeResult(true, None, Some(a[..]));
      }
  }

  /** When the scraper returns nothing, the feed is exactly the nine
      fallback posts, newest first. */
  lemma EmptyScrapeGivesFallback(posts: seq<Post>, dateKey: string -> int)
    requires multiset(posts) == multiset(Dedup(Merge(None, FallbackMemberPosts)))
    ensures multiset(posts) == multiset(FallbackMemberPosts)
    ensures |posts| == 9
  {
    FallbackSurvivesDedup();
    FallbackShape();
    assert |posts| == |multiset(posts)|;
  }
}
