/** `parseLinkedInPosts` of the scrape function
    (supabase/functions/scrape-linkedin/index.ts): which collected records
    become posts, their type, member name, title and description, their
    link, date, author and id, and the cap of 15 posts. */
module ScrapeLinkedIn {
  import opened Common
  import opened Text
  import opened PostModel
  import opened Hashtags

  /** One collected record. Any field may be absent; `hashtags`, when present,
      is the array the record carries. */
  datatype Item = Item(
    text: Option<string>,
    content: Option<string>,
    postText: Option<string>,
    description: Option<string>,
    hashtags: Option<seq<string>>,
    url: Option<string>,
    postUrl: Option<string>,
    link: Option<string>,
    date: Option<string>,
    publishedDate: Option<string>,
    createdDate: Option<string>,
    author: Option<string>)

  /** The response body: an array of records, or a single value. A record
      that is `None` is `null` or `undefined`, on which reading a field throws. */
  datatype Payload = Many(records: seq<Option<Item>>) | One(record: Option<Item>)

  /** What the regular expressions and the clock give, as inputs: the
      patterns themselves are not modelled. */
  datatype Matchers = Matchers(
    spotlight: string -> bool,                   // some "member of the week" pattern matches
    nameMatches: string -> seq<Option<string>>,  // `nameMatch[1]` for each name pattern, in order
    titleMatches: string -> seq<Option<string>>, // `titleMatch[0]` for each title pattern, in order
    urlInText: string -> Option<string>,         // the LinkedIn URL found in the text
    dateInText: string -> Option<string>,        // `extractDateFromText`
    today: string,                               // today's date, `YYYY-MM-DD`
    clock: nat -> nat)                           // `Date.now()` when the record at an index is pushed

  // ---------------------------------------------------------------------------
  // Inclusion and type
  // ---------------------------------------------------------------------------

  /** `item.text || item.content || item.post_text || item.description`. */
  function ContentOf(item: Item): (c: Option<string>)
    ensures c.Some? ==> c.value != ""
    ensures Truthy(item.text) ==> c == item.text
    ensures !Truthy(item.text) && Truthy(item.content) ==> c == item.content
    ensures (!Truthy(item.text) && !Truthy(item.content) && Truthy(item.postText)) ==> c == item.postText
    ensures (!Truthy(item.text) && !Truthy(item.content) && !Truthy(item.postText)) ==>
              c == (if Truthy(item.description) then item.description else None)
  {
    var cs := [item.text, item.content, item.postText, item.description];
    assert Truthy(item.text) ==> FirstTruthyAt(cs, 0);
    assert !Truthy(item.text) && Truthy(item.content) ==> FirstTruthyAt(cs, 1);
    assert !Truthy(item.text) && !Truthy(item.content) && Truthy(item.postText) ==> FirstTruthyAt(cs, 2);
    assert !Truthy(item.text) && !Truthy(item.content) && !Truthy(item.postText) && Truthy(item.description)
           ==> FirstTruthyAt(cs, 3);
    FirstTruthy(cs)
  }

  const RelevantTags: seq<string> := ["memberoftheweek", "membersspotlight", "aipioneers", "genai", "spotlight"]

  /** `item.hashtags || extractHashtags(content)`: an array the record
      carries wins, even an empty one. */
  function TagsOf(item: Item, content: string): seq<string> {
    if item.hashtags.Some? then item.hashtags.value else ExtractHashtags(content)
  }

  predicate HasRelevantHashtags(tags: seq<string>) {
    exists t :: t in RelevantTags && t in tags
  }

  /** `isMemberSpotlight || hasRelevantHashtags`. */
  predicate IsSpotlight(item: Item, content: string, m: Matchers) {
    m.spotlight(content) || HasRelevantHashtags(TagsOf(item, content))
  }

  /** A record yields a post when it has text, and that text is a spotlight
      or longer than 100 characters. */
  predicate Included(item: Item, m: Matchers) {
    ContentOf(item).Some? && (IsSpotlight(item, ContentOf(item).value, m) || |ContentOf(item).value| > 100)
  }

  /** A record that carries a hashtag array is judged by that array alone:
      tags in its text are not looked at, so an empty array hides them. */
  lemma CarriedTagsWin(item: Item, content: string)
    requires item.hashtags == Some([])
    ensures !HasRelevantHashtags(TagsOf(item, content))
  {
  }

  /** Without a carried array, a tag in the text counts whatever its case. */
  lemma TextTagCounts(item: Item, content: string, p: nat)
    requires item.hashtags.None? && TagAt(content, p)
    requires Lower(content[p + 1..RunEnd(content, p + 1)]) in RelevantTags
    ensures HasRelevantHashtags(TagsOf(item, content))
  {
    var k := EveryTagIsFound(content, 0, p);
    var t := ExtractHashtags(content)[k];
    assert t == Lower(content[p + 1..RunEnd(content, p + 1)]);
    assert t in TagsOf(item, content);
  }

  // ---------------------------------------------------------------------------
  // Member name
  // ---------------------------------------------------------------------------

  const DefaultName: string := "Community Member"

  const StopWords: seq<string> := ["gen", "ai", "global", "linkedin", "member", "week", "spotlight"]

  /** The whole name matches `/^(Gen|AI|Global|LinkedIn|Member|Week|Spotlight)$/i`. */
  predicate IsStopWord(s: string) {
    Lower(s) in StopWords
  }

  /** The number of spaces in `s`. */
  function Spaces(s: string): nat {
    if s == [] then 0 else (if s[0] == ' ' then 1 else 0) + Spaces(s[1..])
  }

  /** `s.split(' ').length`: one more than the number of spaces. */
  function Pieces(s: string): nat {
    Spaces(s) + 1
  }

  lemma {:induction false} NoSpaces(s: string)
    requires forall i :: 0 <= i < |s| ==> s[i] != ' '
    ensures Spaces(s) == 0
  {
    if s != [] {
      NoSpaces(s[1..]);
    }
  }

  /** A name is accepted when it is not a stop word and splits into 2 to 4 pieces. */
  predicate ValidName(s: string) {
    !IsStopWord(s) && 2 <= Pieces(s) <= 4
  }

  /** The stop-word test never decides anything: a stop word is one piece,
      which the length test already refuses. */
  lemma StopWordsAreOnePiece(s: string)
    requires IsStopWord(s)
    ensures Pieces(s) == 1
  {
    StopWordsHaveNoSpace();
    var w := Lower(s);
    forall i | 0 <= i < |s| ensures s[i] != ' ' {
      assert w[i] == LowerChar(s[i]) && w[i] != ' ';
    }
    NoSpaces(s);
  }

  lemma StopWordsHaveNoSpace()
    ensures forall w, i :: w in StopWords && 0 <= i < |w| ==> w[i] != ' '
  {
  }

  /** Names longer than the longest stop word are never stop words. */
  lemma LongNamesAreNotStopWords(s: string)
    requires |s| > 9
    ensures !IsStopWord(s)
  {
    assert forall w :: w in StopWords ==> |w| <= 9;
  }

  /** Two space-free words joined by one space make two pieces. */
  lemma TwoWordsTwoPieces(a: string, b: string)
    requires forall i :: 0 <= i < |a| ==> a[i] != ' '
    requires forall i :: 0 <= i < |b| ==> b[i] != ' '
    ensures Pieces(a + " " + b) == 2
  {
    SpacesAppend(a, " " + b);
    NoSpaces(a);
    assert a + " " + b == a + (" " + b);
    assert (" " + b)[1..] == b;
    NoSpaces(b);
  }

  lemma {:induction false} SpacesAppend(a: string, b: string)
    ensures Spaces(a + b) == Spaces(a) + Spaces(b)
  {
    if a != [] {
      assert (a + b)[0] == a[0];
      assert (a + b)[1..] == a[1..] + b;
      SpacesAppend(a[1..], b);
    } else {
      assert a + b == b;
    }
  }

  lemma DefaultNameIsValid()
    ensures ValidName(DefaultName)
  {
    DefaultNotStop();
    DefaultPieces();
  }
  lemma DefaultNotStop()
    ensures !IsStopWord(DefaultName)
  {
    LongNamesAreNotStopWords(DefaultName);
  }
  lemma DefaultPieces()
    ensures Pieces(DefaultName) == 2
  {
    assert DefaultName == "Community" + " " + "Member";
    TwoWordsTwoPieces("Community", "Member");
  }

  /** A match is taken as the name when it is present and non-empty and its
      trimmed text is a valid name. */
  predicate Accepts(found: Option<string>) {
    Truthy(found) && ValidName(Trim(found.value))
  }

  /** The name the loop settles on: the first present, non-empty candidate
      whose trimmed text is a valid name, or the default. */
  function NameFrom(candidates: seq<Option<string>>): string {
    if candidates == [] then DefaultName
    else if Accepts(candidates[0]) then Trim(candidates[0].value)
    else NameFrom(candidates[1..])
  }

  /** The name is the default or the trimmed text of an accepted match. */
  lemma {:induction false} NameIsDefaultOrMatch(candidates: seq<Option<string>>)
    ensures || NameFrom(candidates) == DefaultName
            || exists i :: 0 <= i < |candidates| && Accepts(candidates[i]) && NameFrom(candidates) == Trim(candidates[i].value)
  {
    if candidates != [] && !Accepts(candidates[0]) {
      NameIsDefaultOrMatch(candidates[1..]);
      if NameFrom(candidates[1..]) != DefaultName {
        var i :| 0 <= i < |candidates[1..]| && Accepts(candidates[1..][i]) && NameFrom(candidates[1..]) == Trim(candidates[1..][i].value);
        assert candidates[1..][i] == candidates[i + 1];
      }
    }
  }

  /** Whatever the matches, the chosen name is a valid one. */
  lemma {:induction false} NameFromIsValid(candidates: seq<Option<string>>)
    ensures ValidName(NameFrom(candidates))
  {
    if candidates == [] {
      DefaultNameIsValid();
    } else if !Accepts(candidates[0]) {
      NameFromIsValid(candidates[1..]);
    }
  }

  /** The name loop: try each pattern's match in turn, stop at the first
      valid one. */
  method PickName(candidates: seq<Option<string>>) returns (name: string)
    ensures name == NameFrom(candidates)
  {
    name := DefaultName;
    var i := 0;
    while i < |candidates|
      invariant i <= |candidates|
      invariant name == DefaultName
      invariant NameFrom(candidates) == NameFrom(candidates[i..])
    {
      assert candidates[i..][1..] == candidates[i + 1..];
      if Truthy(candidates[i]) {
        var extracted := Trim(candidates[i].value);
        if !IsStopWord(extracted) && 2 <= Pieces(extracted) <= 4 {
          name := extracted;
          break;
        }
      }
      i := i + 1;
    }
  }

  /** The first valid candidate wins over every later one. */
  lemma {:induction false} FirstValidNameWins(candidates: seq<Option<string>>, i: nat)
    requires i < |candidates| && Accepts(candidates[i])
    requires forall j :: 0 <= j < i ==> !Accepts(candidates[j])
    ensures NameFrom(candidates) == Trim(candidates[i].value)
  {
    if i > 0 {
      var rest := candidates[1..];
      assert !Accepts(candidates[0]);
      assert NameFrom(candidates) == NameFrom(rest);
      forall j | 0 <= j < i - 1 ensures !Accepts(rest[j]) {
        assert rest[j] == candidates[j + 1];
      }
      assert rest[i - 1] == candidates[i];
      FirstValidNameWins(rest, i - 1);
    }
  }

  // ---------------------------------------------------------------------------
  // Member title
  // ---------------------------------------------------------------------------

  const DefaultTitle: string := "Community Member"

  /** `charAt(0).toUpperCase() + slice(1)`. */
  function Capitalize(s: string): (r: string)
    ensures |r| == |s|
    ensures r != [] ==> !IsLowerLetter(r[0]) && r[1..] == s[1..]
  {
    if s == [] then [] else [UpperChar(s[0])] + s[1..]
  }

  /** The title a match gives: trimmed, first letter upper-cased. */
  function TitleOf(found: string): (title: string)
    ensures |title| <= |found|
    ensures title != [] ==> !IsLowerLetter(title[0]) && !IsSpace(title[|title| - 1])
  {
    Capitalize(Trim(found))
  }

  /** The title each pattern's match gives, `None` where it did not match. */
  function Titles(candidates: seq<Option<string>>): (titles: seq<Option<string>>)
    ensures |titles| == |candidates|
    ensures forall i :: 0 <= i < |candidates| ==> titles[i].Some? == candidates[i].Some?
  {
    seq(|candidates|, i requires 0 <= i < |candidates| =>
      if candidates[i].Some? then Some(TitleOf(candidates[i].value)) else None)
  }

  /** The title loop from a current title, over the titles of the matches:
      every match replaces the title, and the first one shorter than 100
      characters ends the loop. */
  function TitleFrom(titles: seq<Option<string>>, current: string): (title: string)
    ensures title == current || Some(title) in titles
    ensures (exists i :: 0 <= i < |titles| && titles[i].Some? && |titles[i].value| < 100) ==> |title| < 100
  {
    if titles == [] then current
    else if titles[0].Some? then
      if |titles[0].value| < 100 then titles[0].value else TitleFrom(titles[1..], titles[0].value)
    else TitleFrom(titles[1..], current)
  }

  /** The title loop. */
  method PickTitle(candidates: seq<Option<string>>) returns (title: string)
    ensures title == TitleFrom(Titles(candidates), DefaultTitle)
  {
    title := DefaultTitle;
    var i := 0;
    while i < |candidates|
      invariant i <= |candidates|
      invariant TitleFrom(Titles(candidates), DefaultTitle) == TitleFrom(Titles(candidates)[i..], title)
    {
      assert Titles(candidates)[i..][1..] == Titles(candidates)[i + 1..];
      if candidates[i].Some? {
        title := Capitalize(Trim(candidates[i].value));
        if |title| < 100 {
          break;
        }
      }
      i := i + 1;
    }
  }

  /** The first match whose title is shorter than 100 characters ends the
      loop: earlier matches only had longer titles. */
  lemma {:induction false} FirstShortTitleWins(titles: seq<Option<string>>, current: string, i: nat)
    requires i < |titles| && titles[i].Some? && |titles[i].value| < 100
    requires forall j :: 0 <= j < i && titles[j].Some? ==> |titles[j].value| >= 100
    ensures TitleFrom(titles, current) == titles[i].value
  {
    if i > 0 {
      var next := if titles[0].Some? then titles[0].value else current;
      assert TitleFrom(titles, current) == TitleFrom(titles[1..], next);
      FirstShortTitleWins(titles[1..], next, i - 1);
    }
  }

  /** When every match gives a title of 100 characters or more, the loop
      never breaks and the last match's title stays. */
  lemma {:induction false} LongTitlesKeepLastMatch(titles: seq<Option<string>>, current: string, i: nat)
    requires i < |titles| && titles[i].Some?
    requires forall j :: i < j < |titles| ==> titles[j].None?
    requires forall j :: 0 <= j < |titles| && titles[j].Some? ==> |titles[j].value| >= 100
    ensures TitleFrom(titles, current) == titles[i].value
  {
    var tail := titles[1..];
    var next := if titles[0].Some? then titles[0].value else current;
    assert TitleFrom(titles, current) == TitleFrom(tail, next);
    if i == 0 {
      NoMatchKeepsTitle(tail, next);
    } else {
      LongTitlesKeepLastMatch(tail, next, i - 1);
    }
  }

  lemma {:induction false} NoMatchKeepsTitle(titles: seq<Option<string>>, current: string)
    requires forall i :: 0 <= i < |titles| ==> titles[i].None?
    ensures TitleFrom(titles, current) == current
  {
    if titles != [] {
      NoMatchKeepsTitle(titles[1..], current);
    }
  }

  // ---------------------------------------------------------------------------
  // Link, date, author, id
  // ---------------------------------------------------------------------------

  const Https: string := "https://"

  const DefaultUrl: string := Https + "www.linkedin.com/company/gen-ai-global/posts/"

  /** `s.replace(pat, '')` for a string pattern: the first occurrence removed. */
  function RemoveFirst(s: string, pat: string): (r: string)
    requires pat != []
    ensures pat <= s ==> r == s[|pat|..]
    ensures !Includes(s, pat) ==> r == s
    decreases |s|
  {
    if |s| < |pat| then s
    else if pat <= s then s[|pat|..]
    else [s[0]] + RemoveFirst(s[1..], pat)
  }

  /** Wherever the first occurrence of `pat` sits, `RemoveFirst` cuts out
      exactly that occurrence and keeps the text on both sides of it. */
  lemma {:induction false} RemoveFirstOccurrence(s: string, pat: string, k: nat)
    requires pat != [] && OccursAt(s, pat, k)
    requires forall j :: 0 <= j < k ==> !OccursAt(s, pat, j)
    ensures RemoveFirst(s, pat) == s[..k] + s[k + |pat|..]
    decreases |s|
  {
    if pat <= s {
      assert OccursAt(s, pat, 0);
    } else {
      assert !OccursAt(s, pat, 0);
      OccursInTail(s, pat, k - 1);
      forall j | 0 <= j < k - 1 ensures !OccursAt(s[1..], pat, j) {
        OccursInTail(s, pat, j);
      }
      RemoveFirstOccurrence(s[1..], pat, k - 1);
      assert s[..k] == [s[0]] + s[1..][..k - 1];
      assert s[k + |pat|..] == s[1..][k - 1 + |pat|..];
    }
  }

  /** An `https://` in the middle of a captured URL is removed too: the
      first occurrence goes, wherever it is. */
  lemma RemoveFirstInMiddle()
    ensures RemoveFirst("ab" + Https + "c", Https) == "abc"
  {
    var s := "ab" + Https + "c";
    assert OccursAt(s, Https, 2);
    assert s[0..|Https|][0] == 'a' != Https[0];
    assert s[1..1 + |Https|][0] == 'b' != Https[0];
    RemoveFirstOccurrence(s, Https, 2);
  }

  /** `item.url || item.post_url || item.link || <URL in the text> || default`,
      where a URL found in the text is given one leading `https://`. */
  function LinkOf(item: Item, content: string, m: Matchers): (url: string)
    ensures Truthy(item.url) ==> url == item.url.value
    ensures !Truthy(item.url) && Truthy(item.postUrl) ==> url == item.postUrl.value
    ensures (!Truthy(item.url) && !Truthy(item.postUrl) && Truthy(item.link)) ==> url == item.link.value
    ensures (!Truthy(item.url) && !Truthy(item.postUrl) && !Truthy(item.link)) ==>
              && Https <= url
              && (m.urlInText(content).Some? ==> url == Https + RemoveFirst(m.urlInText(content).value, Https))
              && (m.urlInText(content).None? ==> url == DefaultUrl)
  {
    var fromText := if m.urlInText(content).Some? then Some(Https + RemoveFirst(m.urlInText(content).value, Https)) else None;
    var cs := [item.url, item.postUrl, item.link, fromText];
    assert Truthy(item.url) ==> FirstTruthyAt(cs, 0);
    assert !Truthy(item.url) && Truthy(item.postUrl) ==> FirstTruthyAt(cs, 1);
    assert !Truthy(item.url) && !Truthy(item.postUrl) && Truthy(item.link) ==> FirstTruthyAt(cs, 2);
    assert !Truthy(item.url) && !Truthy(item.postUrl) && !Truthy(item.link) && fromText.Some? ==> FirstTruthyAt(cs, 3);
    var found := FirstTruthy(cs);
    assert DefaultUrl[..|Https|] == Https;
    found.GetOr(DefaultUrl)
  }

  /** A URL found with its `https://` comes out unchanged. */
  lemma HttpsUrlKept(item: Item, content: string, m: Matchers)
    requires !Truthy(item.url) && !Truthy(item.postUrl) && !Truthy(item.link)
    requires m.urlInText(content).Some? && Https <= m.urlInText(content).value
    ensures LinkOf(item, content, m) == m.urlInText(content).value
  {
    var u := m.urlInText(content).value;
    var fromText := Https + RemoveFirst(u, Https);
    assert fromText == Https + u[|Https|..] == u;
    var candidates := [item.url, item.postUrl, item.link, Some(fromText)];
    assert Truthy(candidates[3]);
    var found := FirstTruthy(candidates);
    assert found == Some(fromText);
  }

  /** `item.date || item.published_date || item.created_date || <date in the text> || today`. */
  function DateOf(item: Item, content: string, m: Matchers): (date: string)
    ensures Truthy(item.date) ==> date == item.date.value
    ensures !Truthy(item.date) && Truthy(item.publishedDate) ==> date == item.publishedDate.value
    ensures (!Truthy(item.date) && !Truthy(item.publishedDate) && Truthy(item.createdDate)) ==> date == item.createdDate.value
    ensures (!Truthy(item.date) && !Truthy(item.publishedDate) && !Truthy(item.createdDate)) ==>
              date == (if Truthy(m.dateInText(content)) then m.dateInText(content).value else m.today)
  {
    var cs := [item.date, item.publishedDate, item.createdDate, m.dateInText(content)];
    assert Truthy(item.date) ==> FirstTruthyAt(cs, 0);
    assert !Truthy(item.date) && Truthy(item.publishedDate) ==> FirstTruthyAt(cs, 1);
    assert !Truthy(item.date) && !Truthy(item.publishedDate) && Truthy(item.createdDate) ==> FirstTruthyAt(cs, 2);
    assert !Truthy(item.date) && !Truthy(item.publishedDate) && !Truthy(item.createdDate) && Truthy(m.dateInText(content))
           ==> FirstTruthyAt(cs, 3);
    FirstTruthy(cs).GetOr(m.today)
  }

  const DefaultAuthor: string := "Gen AI Global"

  /** `item.author || 'Gen AI Global'`. */
  function AuthorOf(item: Item): (author: string)
    ensures author != []
    ensures Truthy(item.author) ==> author == item.author.value
    ensures !Truthy(item.author) ==> author == DefaultAuthor
  {
    if Truthy(item.author) then item.author.value else DefaultAuthor
  }

  /** `bright-data-${index}-${Date.now()}`. */
  function PostId(index: nat, now: nat): string {
    "bright-data-" + NatToString(index) + "-" + NatToString(now)
  }

  /** The ids of two records differ, whatever the clock says. */
  lemma PostIdsDistinct(i: nat, j: nat, now: nat, now': nat)
    requires i != j
    ensures PostId(i, now) != PostId(j, now')
  {
    var a, b := NatToString(i), NatToString(j);
    var x, y := "-" + NatToString(now), "-" + NatToString(now');
    if PostId(i, now) == PostId(j, now') {
      assert PostId(i, now) == "bright-data-" + (a + x);
      assert PostId(j, now') == "bright-data-" + (b + y);
      var c := PostId(i, now)[12..];
      assert c == a + x == b + y;
      NoDashInDigits(i);
      NoDashInDigits(j);
      assert FirstDashAt(c, |a|) && FirstDashAt(c, |b|);
      assert a == c[..|a|] == b;
      NatToStringInjective(i, j);
    }
  }

  /** The first `-` of `c` is at `k`. */
  ghost predicate FirstDashAt(c: string, k: nat) {
    k < |c| && c[k] == '-' && forall j :: 0 <= j < k ==> c[j] != '-'
  }

  lemma NoDashInDigits(n: nat)
    ensures forall k :: 0 <= k < |NatToString(n)| ==> IsDigit(NatToString(n)[k])
  {
    var s := NatToString(n);
    forall k | 0 <= k < |s| ensures IsDigit(s[k]) {
      DigitsAreDigits(n, k);
    }
  }

  lemma {:induction false} DigitsAreDigits(n: nat, k: nat)
    requires k < |NatToString(n)|
    ensures IsDigit(NatToString(n)[k])
  {
    if n >= 10 && k < |NatToString(n / 10)| {
      DigitsAreDigits(n / 10, k);
    }
  }

  // ---------------------------------------------------------------------------
  // Records to posts
  // ---------------------------------------------------------------------------

  /** The post built from an included record at `index`. */
  function PostOf(item: Item, index: nat, m: Matchers): Post {
    var content := ContentOf(item).GetOr("");
    Post(
      PostId(index, m.clock(index)),
      content,
      AuthorOf(item),
      DateOf(item, content, m),
      if IsSpotlight(item, content, m) then MemberSpotlight else General,
      LinkOf(item, content, m),
      Some(NameFrom(m.nameMatches(content))),
      Some(TitleFrom(Titles(m.titleMatches(content)), DefaultTitle)),
      Some(CleanDescription(content)))
  }

  /** A post is a spotlight exactly when its text matched a pattern or its
      tags hold a relevant one; a general post is there for its length. */
  lemma PostTypeRule(item: Item, index: nat, m: Matchers)
    requires Included(item, m)
    ensures PostOf(item, index, m).postType == MemberSpotlight <==> IsSpotlight(item, ContentOf(item).value, m)
    ensures PostOf(item, index, m).postType == General ==> |PostOf(item, index, m).content| > 100
  {
  }

  /** A post's content is the record's non-empty text. */
  lemma PostContent(item: Item, index: nat, m: Matchers)
    requires ContentOf(item).Some?
    ensures PostOf(item, index, m).content == ContentOf(item).value != []
  {
    assert ContentOf(item).value != "";
  }

  /** Every post carries a valid member name. */
  lemma PostNameIsValid(item: Item, index: nat, m: Matchers)
    ensures ValidName(PostOf(item, index, m).memberName.value)
  {
    NameFromIsValid(m.nameMatches(ContentOf(item).GetOr("")));
  }

  /** Every post carries a clean description of at most 403 characters. */
  lemma PostDescriptionIsClean(item: Item, index: nat, m: Matchers)
    ensures |PostOf(item, index, m).memberDescription.value| <= 403
    ensures Clean(PostOf(item, index, m).memberDescription.value)
  {
    CleanDescriptionShape(ContentOf(item).GetOr(""));
  }

  /** The records the `forEach` reaches: reading a field of a `null` record
      throws, and the handler keeps the posts pushed before it. */
  function FirstNull(records: seq<Option<Item>>): (n: nat)
    ensures n <= |records|
    ensures forall k :: 0 <= k < n ==> records[k].Some?
    ensures n < |records| ==> records[n].None?
  {
    if records == [] || records[0].None? then 0 else 1 + FirstNull(records[1..])
  }

  /** The records before the first `null` one. */
  function Reached(records: seq<Option<Item>>): (items: seq<Item>)
    ensures |items| == FirstNull(records)
    ensures forall k :: 0 <= k < |items| ==> records[k] == Some(items[k])
  {
    seq(FirstNull(records), k requires 0 <= k < FirstNull(records) => records[k].value)
  }

  /** The `forEach` body's test, and the post it pushes. */
  function Keeps(m: Matchers): (Item, nat) -> bool {
    (item: Item, index: nat) => Included(item, m)
  }

  function Makes(m: Matchers): (Item, nat) -> Post {
    (item: Item, index: nat) => PostOf(item, index, m)
  }

  /** The posts pushed for the first `n` records reached. */
  function Collected(items: seq<Item>, n: nat, m: Matchers): seq<Post>
    requires n <= |items|
  {
    Pushed(items, n, Keeps(m), Makes(m))
  }

  /** The collected posts are the included records, in record order: `idx`
      gives each post's record. */
  lemma CollectedFromRecords(items: seq<Item>, m: Matchers) returns (idx: seq<nat>)
    ensures |idx| == |Collected(items, |items|, m)|
    ensures forall k :: 0 <= k < |idx| ==>
              idx[k] < |items| && Included(items[idx[k]], m)
              && Collected(items, |items|, m)[k] == PostOf(items[idx[k]], idx[k], m)
    ensures forall k, l :: 0 <= k < l < |idx| ==> idx[k] < idx[l]
    ensures forall i :: 0 <= i < |items| && Included(items[i], m) ==> i in idx
  {
    idx := PushedPositions(items, |items|, Keeps(m), Makes(m));
  }

  /** Different posts never share an id. */
  lemma CollectedIdsDistinct(items: seq<Item>, m: Matchers)
    ensures forall k, l :: 0 <= k < l < |Collected(items, |items|, m)| ==>
              Collected(items, |items|, m)[k].id != Collected(items, |items|, m)[l].id
  {
    var idx := CollectedFromRecords(items, m);
    forall k, l | 0 <= k < l < |idx|
      ensures Collected(items, |items|, m)[k].id != Collected(items, |items|, m)[l].id
    {
      PostIdsDistinct(idx[k], idx[l], m.clock(idx[k]), m.clock(idx[l]));
    }
  }

  function RecordsOf(data: Payload): seq<Option<Item>> {
    if data.Many? then data.records else [data.record]
  }

  /** What parsing returns: the posts of the records reached, at most 15. */
  function Parsed(data: Payload, m: Matchers): (posts: seq<Post>)
    ensures |posts| <= 15
  {
    var items := Reached(RecordsOf(data));
    var all := Collected(items, |items|, m);
    if |all| <= 15 then all else all[..15]
  }

  /** The body of the `forEach` for a record that is not `null`: the post
      it pushes, if any. */
  method ParseRecord(item: Item, index: nat, m: Matchers) returns (post: Option<Post>)
    ensures post.Some? <==> Included(item, m)
    ensures post.Some? ==> post.value == PostOf(item, index, m)
  {
    var content := ContentOf(item);
    if content.None? {
      return None;
    }
    var text := content.value;
    var spotlight := m.spotlight(text) || HasRelevantHashtags(TagsOf(item, text));
    if !(spotlight || |text| > 100) {
      return None;
    }
    var name := PickName(m.nameMatches(text));
    var title := PickTitle(m.titleMatches(text));
    post := Some(Post(
      PostId(index, m.clock(index)),
      text,
      AuthorOf(item),
      DateOf(item, text, m),
      if spotlight then MemberSpotlight else General,
      LinkOf(item, text, m),
      Some(name),
      Some(title),
      Some(CleanDescription(text))));
  }

  /** `parseLinkedInPosts`: push a post for each included record in turn,
      stop at a `null` record, and keep the first 15. */
  method ParseLinkedInPosts(data: Payload, m: Matchers) returns (posts: seq<Post>)
    ensures posts == Parsed(data, m)
    ensures |posts| <= 15
    ensures data.One? ==> posts == Parsed(Many([data.record]), m)
  {
    var records := if data.Many? then data.records else [data.record];
    ghost var items := Reached(records);
    var all: seq<Post> := [];
    var i := 0;
    while i < |records|
      invariant i <= |records|
      invariant forall k :: 0 <= k < i ==> records[k].Some?
      invariant i <= |items|
      invariant all == Collected(items, i, m)
    {
      if records[i].None? {
        break;
      }
      var post := ParseRecord(records[i].value, i, m);
      PushedNext(items, i, Keeps(m), Makes(m));
      if post.Some? {
        all := all + [post.value];
      }
      i := i + 1;
    }
    assert i == |items|;
    posts := if |all| <= 15 then all else all[..15];
  }

  /** Parsing keeps record order and drops nothing before the cap: the
      result is a prefix of all collected posts, the whole of it when fewer
      than 15 were collected. */
  lemma ParsedIsPrefix(data: Payload, m: Matchers)
    ensures
      var items := Reached(RecordsOf(data));
      var all := Collected(items, |items|, m);
      && Parsed(data, m) == all[..|Parsed(data, m)|]
      && (|all| <= 15 ==> Parsed(data, m) == all)
  {
  }

  /** A `null` body, or an array that starts with `null`, yields nothing. */
  lemma NullFirstYieldsNothing(data: Payload, m: Matchers)
    requires RecordsOf(data) != [] && RecordsOf(data)[0].None?
    ensures Parsed(data, m) == []
  {
  }
}
