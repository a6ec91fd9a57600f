/** `fetch_newsletters` (main.py:43-153): the labelled messages of the day
 *  are listed page by page, each one is fetched, and its subject, sender,
 *  date and a plain-text body become one newsletter record. */
module Fetch {
  import opened PyStr
  import opened Fallback

  /** One record of `fetch_newsletters`. */
  datatype Newsletter = Newsletter(subject: string, body: string, sender: string, messageId: string, date: string)

  /** A header of a message: its name as sent, and its value. */
  datatype Header = Header(name: string, value: string)

  /** A part of a multipart message: `mimeType` and `body.data`, either of
      which may be missing. */
  datatype Part = Part(mimeType: Option<string>, data: Option<string>)

  /** The `payload` of a message in `full` format: its headers, its `parts`
      when the key is present, and `body.data` for a single-part message. */
  datatype Payload = Payload(headers: seq<Header>, parts: Option<seq<Part>>, data: Option<string>)

  // ---------------------------------------------------------------------------
  // Headers

  function LowerAscii(c: char): char {
    if 'A' <= c <= 'Z' then c - 'A' + 'a' else c
  }

  /** `name.lower() == target` for a target of lower-case ASCII letters other
      than `k`: no other character lowers to one of those letters, so only
      the ASCII capitals need folding. */
  predicate NameIs(name: string, target: string) {
    |name| == |target| && forall i :: 0 <= i < |name| ==> LowerAscii(name[i]) == target[i]
  }

  /** `next((h['value'] for h in headers if h['name'].lower() == target), default)`. */
  function HeaderValue(headers: seq<Header>, target: string, default: string): string
    decreases |headers|
  {
    if headers == [] then default
    else if NameIs(headers[0].name, target) then headers[0].value
    else HeaderValue(headers[1..], target, default)
  }

  /** The value of the first header with the name, whatever follows it. */
  lemma {:induction false} HeaderValueFirst(headers: seq<Header>, target: string, default: string, k: nat)
    requires k < |headers| && NameIs(headers[k].name, target)
    requires forall j :: 0 <= j < k ==> !NameIs(headers[j].name, target)
    ensures HeaderValue(headers, target, default) == headers[k].value
    decreases k
  {
    if k > 0 {
      assert forall j :: 0 <= j < k - 1 ==> headers[1..][j] == headers[j + 1];
      HeaderValueFirst(headers[1..], target, default, k - 1);
    }
  }

  /** The default when no header has the name. */
  lemma {:induction false} HeaderValueDefault(headers: seq<Header>, target: string, default: string)
    requires forall j :: 0 <= j < |headers| ==> !NameIs(headers[j].name, target)
    ensures HeaderValue(headers, target, default) == default
    decreases |headers|
  {
    if headers != [] {
      assert forall j :: 0 <= j < |headers| - 1 ==> headers[1..][j] == headers[j + 1];
      HeaderValueDefault(headers[1..], target, default);
    }
  }

  /** Against a lower-case ASCII letter, the fold accepts that letter and
      its upper-case form, and nothing else. */
  lemma LowerAsciiMatches(c: char, t: char)
    requires 'a' <= t <= 'z'
    ensures LowerAscii(c) == t <==> c == t || c as int == t as int - 32
  {
  }

  /** A name matches a lower-case ASCII target exactly when it has the
      target's length and each character is the target's letter in either
      case. */
  lemma NameIsAnyCase(name: string, target: string)
    requires forall i :: 0 <= i < |target| ==> 'a' <= target[i] <= 'z'
    ensures NameIs(name, target) <==>
              |name| == |target|
              && forall i :: 0 <= i < |name| ==> name[i] == target[i] || name[i] as int == target[i] as int - 32
  {
    if |name| == |target| {
      forall i | 0 <= i < |name| {
        LowerAsciiMatches(name[i], target[i]);
      }
    }
  }

  /** Header names match whatever their case: examples. */
  lemma SubjectAnyCase()
    ensures NameIs("Subject", "subject") && NameIs("SUBJECT", "subject") && NameIs("subject", "subject")
    ensures !NameIs("Subject:", "subject") && !NameIs("X-Subject", "subject")
  {
  }

  // ---------------------------------------------------------------------------
  // HTML tags

  /** Where the tag opened at the start of `s` closes, looking from `j` on:
      one past the first `>`, or 0 when a `<` or the end comes first. */
  function CloseAt(s: string, j: nat): (e: nat)
    ensures e == 0 || (j < e <= |s| && s[e - 1] == '>')
    decreases |s| - j
  {
    if j >= |s| || s[j] == '<' then 0
    else if s[j] == '>' then j + 1
    else CloseAt(s, j + 1)
  }

  /** The length of the match of `<[^<]+?>` at the start of `s`, or 0: a `<`,
      at least one character other than `<`, and the first `>` after that. */
  function TagAt(s: string): (n: nat)
    ensures n <= |s|
  {
    if |s| >= 3 && s[0] == '<' && s[1] != '<' then CloseAt(s, 2) else 0
  }

  /** A match is as short as the lazy `+?` makes it: no `<` inside and no `>`
      between `j` and the closing one. */
  lemma {:induction false} CloseAtShortest(s: string, j: nat)
    ensures var e := CloseAt(s, j);
            e > 0 ==> forall i :: j <= i < e - 1 ==> s[i] != '<' && s[i] != '>'
    decreases |s| - j
  {
    if j < |s| && s[j] != '<' && s[j] != '>' {
      CloseAtShortest(s, j + 1);
    }
  }

  /** What a tag match at the start of `s` covers. */
  lemma TagAtMatchesPattern(s: string)
    ensures var n := TagAt(s);
            n > 0 ==> && n >= 3 && s[0] == '<' && s[n - 1] == '>'
                      && (forall i :: 1 <= i < n - 1 ==> s[i] != '<')
                      && (forall i :: 2 <= i < n - 1 ==> s[i] != '>')
  {
    if TagAt(s) > 0 {
      CloseAtShortest(s, 2);
    }
  }

  /** A `>` at `e` with no `<` from `j` up to it closes the tag no later than
      `e`, and exactly there when no other `>` comes first. */
  lemma {:induction false} CloseAtReaches(s: string, j: nat, e: nat)
    requires j <= e < |s| && s[e] == '>'
    requires forall i :: j <= i < e ==> s[i] != '<'
    ensures 0 < CloseAt(s, j) <= e + 1
    ensures (forall i :: j <= i < e ==> s[i] != '>') ==> CloseAt(s, j) == e + 1
    decreases e - j
  {
    if j < e && s[j] != '>' {
      CloseAtReaches(s, j + 1, e);
    }
  }

  /** The converse of `TagAtMatchesPattern`: a `<`, a first character other
      than `<`, and a later `>` with no `<` in between make a match, which
      ends at the first `>` from the third character on. */
  lemma TagAtComplete(s: string, e: nat)
    requires 2 <= e < |s| && s[0] == '<' && s[1] != '<' && s[e] == '>'
    requires forall i :: 1 <= i < e ==> s[i] != '<'
    ensures 0 < TagAt(s) <= e + 1
    ensures (forall i :: 2 <= i < e ==> s[i] != '>') ==> TagAt(s) == e + 1
  {
    CloseAtReaches(s, 2, e);
  }

  /** `re.sub('<[^<]+?>', '', s)`: one left-to-right pass deleting matches. */
  function StripTags(s: string): (r: string)
    ensures |r| <= |s|
    decreases |s|
  {
    if s == [] then []
    else if TagAt(s) > 0 then StripTags(s[TagAt(s)..])
    else [s[0]] + StripTags(s[1..])
  }

  /** Text without a `<` holds no tag and comes through unchanged. */
  lemma {:induction false} StripTagsNoTag(s: string)
    requires '<' !in s
    ensures StripTags(s) == s
    decreases |s|
  {
    if s != [] {
      assert s[0] != '<';
      assert '<' !in s[1..] by {
        forall c | c in s[1..] ensures c != '<' {
          var i :| 0 <= i < |s[1..]| && s[1..][i] == c;
          assert s[i + 1] == c;
        }
      }
      StripTagsNoTag(s[1..]);
      assert s == [s[0]] + s[1..];
    }
  }

  /** One pass only: the text around a deleted tag can form a new one, which
      stays. */
  lemma StripTagsSinglePass()
    ensures StripTags("<<a>b>") == "<b>"
  {
    var s := "<<a>b>";
    assert TagAt(s) == 0;
    var t := s[1..];
    assert t == "<a>b>";
    assert CloseAt(t, 2) == 3;
    assert t[3..] == "b>";
    assert TagAt("b>") == 0;
    assert TagAt(">") == 0;
    assert StripTags(">") == ">";
  }

  // ---------------------------------------------------------------------------
  // The body

  /** A truthy `data` field: present and non-empty. */
  predicate HasData(p: Part) {
    p.data.Some? && p.data.value != ""
  }

  /** The index of the first part of the MIME type that carries data. */
  function FirstWithData(parts: seq<Part>, mime: string): (k: Option<nat>)
    ensures k.Some? ==> k.value < |parts| && parts[k.value].mimeType == Some(mime) && HasData(parts[k.value])
    ensures k.Some? ==> forall j :: 0 <= j < k.value ==> !(parts[j].mimeType == Some(mime) && HasData(parts[j]))
    ensures k.None? ==> forall j :: 0 <= j < |parts| ==> !(parts[j].mimeType == Some(mime) && HasData(parts[j]))
    decreases |parts|
  {
    if parts == [] then None
    else if parts[0].mimeType == Some(mime) && HasData(parts[0]) then Some(0)
    else
      match FirstWithData(parts[1..], mime)
      case None =>
        assert forall j :: 1 <= j < |parts| ==> parts[j] == parts[1..][j - 1];
        None
      case Some(k) =>
        assert forall j :: 1 <= j < k + 1 ==> parts[j] == parts[1..][j - 1];
        Some(k + 1)
  }

  /** The body before the HTML fallback: the first `text/plain` part with
      data, or for a single-part message its own data, decoded. */
  function PlainBody(decode: string -> string, payload: Payload): string {
    match payload.parts
    case Some(parts) =>
      (match FirstWithData(parts, "text/plain")
       case Some(k) => decode(parts[k].data.value)
       case None => "")
    case None =>
      if payload.data.Some? && payload.data.value != "" then decode(payload.data.value) else ""
  }

  /** The body of a message: the plain body, or when that is empty and the
      message has parts, the first `text/html` part with data, decoded and
      stripped of tags. */
  function Body(decode: string -> string, payload: Payload): string {
    var plain := PlainBody(decode, payload);
    if plain == [] && payload.parts.Some? then
      match FirstWithData(payload.parts.value, "text/html")
      case Some(k) => StripTags(decode(payload.parts.value[k].data.value))
      case None => ""
    else plain
  }

  /** A non-empty plain body is the body; HTML is only a fallback. */
  lemma PlainBodyWins(decode: string -> string, payload: Payload)
    requires PlainBody(decode, payload) != []
    ensures Body(decode, payload) == PlainBody(decode, payload)
  {
  }

  /** A message without parts never falls back to HTML. */
  lemma SinglePartBody(decode: string -> string, payload: Payload)
    requires payload.parts.None?
    ensures Body(decode, payload) == PlainBody(decode, payload)
  {
  }

  /** The body extraction of `fetch_newsletters`, loop by loop. */
  method ExtractBody(decode: string -> string, payload: Payload) returns (body: string)
    ensures body == Body(decode, payload)
  {
    body := "";
    if payload.parts.Some? {
      var parts := payload.parts.value;
      for i := 0 to |parts|
        invariant body == ""
        invariant forall j :: 0 <= j < i ==> !(parts[j].mimeType == Some("text/plain") && HasData(parts[j]))
      {
        if parts[i].mimeType == Some("text/plain") {
          var data := parts[i].data;
          if data.Some? && data.value != "" {
            body := decode(data.value);
            PlainAt(parts, "text/plain", i);
            break;
          }
        }
      }
    } else {
      var data := payload.data;
      if data.Some? && data.value != "" {
        body := decode(data.value);
      }
    }
    assert body == PlainBody(decode, payload);
    if body == "" && payload.parts.Some? {
      var parts := payload.parts.value;
      for i := 0 to |parts|
        invariant body == ""
        invariant forall j :: 0 <= j < i ==> !(parts[j].mimeType == Some("text/html") && HasData(parts[j]))
      {
        if parts[i].mimeType == Some("text/html") {
          var data := parts[i].data;
          if data.Some? && data.value != "" {
            var html := decode(data.value);
            body := StripTags(html);
            PlainAt(parts, "text/html", i);
            return;
          }
        }
      }
    }
  }

  /** The part the loop stops at is the first with data. */
  lemma PlainAt(parts: seq<Part>, mime: string, i: nat)
    requires i < |parts| && parts[i].mimeType == Some(mime) && HasData(parts[i])
    requires forall j :: 0 <= j < i ==> !(parts[j].mimeType == Some(mime) && HasData(parts[j]))
    ensures FirstWithData(parts, mime) == Some(i)
  {
  }

  // ---------------------------------------------------------------------------
  // Listing and fetching

  /** What `messages().list(...).execute()` comes back with: an `HttpError`,
      or a page of message ids (`messages`, possibly absent or empty) and the
      token of the next page. */
  datatype ListReply = ListFailed | Page(ids: seq<string>, nextPageToken: Option<string>)

  /** What `messages().get(...).execute()` comes back with: an `HttpError`, or
      the message (a missing `payload` is an empty one). */
  datatype GetReply = GetFailed | Full(payload: Payload)

  /** The record `fetch_newsletters` keeps for one message. */
  function ToNewsletter(decode: string -> string, id: string, payload: Payload): Newsletter {
    Newsletter(
      HeaderValue(payload.headers, "subject", "(No Subject)"),
      Body(decode, payload),
      HeaderValue(payload.headers, "from", "Unknown Sender"),
      id,
      HeaderValue(payload.headers, "date", ""))
  }

  /** The records of one page, fetched in order, and whether every fetch
      succeeded; a failed fetch ends the page, and the records before it stay. */
  datatype Batch = Batch(records: seq<Newsletter>, complete: bool)

  function Records(decode: string -> string, get: string -> GetReply, ids: seq<string>): Batch
    decreases |ids|
  {
    if ids == [] then Batch([], true)
    else
      match get(ids[0])
      case GetFailed => Batch([], false)
      case Full(payload) =>
        var rest := Records(decode, get, ids[1..]);
        Batch([ToNewsletter(decode, ids[0], payload)] + rest.records, rest.complete)
  }

  /** The message ids of some records. */
  function MessageIds(nls: seq<Newsletter>): (ids: seq<string>)
    ensures |ids| == |nls|
  {
    if nls == [] then [] else [nls[0].messageId] + MessageIds(nls[1..])
  }

  /** One record per id, in order, up to the first failed fetch; a complete
      page holds every id. */
  lemma {:induction false} RecordsFollowIds(decode: string -> string, get: string -> GetReply, ids: seq<string>)
    ensures var b := Records(decode, get, ids);
            MessageIds(b.records) <= ids && (b.complete ==> MessageIds(b.records) == ids)
    ensures var b := Records(decode, get, ids);
            !b.complete ==> |b.records| < |ids| && get(ids[|b.records|]).GetFailed?
    decreases |ids|
  {
    RecordsUpToFailure(decode, get, ids);
    if ids != [] && get(ids[0]).Full? {
      RecordsFollowIds(decode, get, ids[1..]);
      RecordsFollowIdsStep(decode, get, ids);
    }
  }

  /** The step of `RecordsFollowIds` past a successful fetch. */
  lemma RecordsFollowIdsStep(decode: string -> string, get: string -> GetReply, ids: seq<string>)
    requires ids != [] && get(ids[0]).Full?
    requires var r := Records(decode, get, ids[1..]);
             MessageIds(r.records) <= ids[1..] && (r.complete ==> MessageIds(r.records) == ids[1..])
    ensures var b := Records(decode, get, ids);
            MessageIds(b.records) <= ids && (b.complete ==> MessageIds(b.records) == ids)
  {
    var r := Records(decode, get, ids[1..]);
    var b := Records(decode, get, ids);
    assert b.records == [b.records[0]] + r.records;
    assert MessageIds(b.records) == [ids[0]] + MessageIds(r.records);
    assert ids == [ids[0]] + ids[1..];
  }

  /** Record `k` of a page is the message of id `k` built from its fetched
      payload; the records stop at the first failed fetch, and only a failed
      fetch leaves the page incomplete. */
  predicate RecordsUpTo(decode: string -> string, get: string -> GetReply, ids: seq<string>, b: Batch) {
    && |b.records| <= |ids|
    && (forall k :: 0 <= k < |b.records| ==>
          get(ids[k]).Full? && b.records[k] == ToNewsletter(decode, ids[k], get(ids[k]).payload))
    && (b.complete <==> |b.records| == |ids|)
    && (!b.complete ==> get(ids[|b.records|]).GetFailed?)
  }

  lemma {:induction false} RecordsUpToFailure(decode: string -> string, get: string -> GetReply, ids: seq<string>)
    ensures RecordsUpTo(decode, get, ids, Records(decode, get, ids))
    decreases |ids|
  {
    if ids != [] && get(ids[0]).Full? {
      var r := Records(decode, get, ids[1..]);
      RecordsUpToFailure(decode, get, ids[1..]);
      RecordsUpToStep(decode, get, ids, r, ToNewsletter(decode, ids[0], get(ids[0]).payload));
    }
  }

  /** The step of `RecordsUpToFailure` past a successful fetch. */
  lemma RecordsUpToStep(decode: string -> string, get: string -> GetReply, ids: seq<string>, r: Batch, first: Newsletter)
    requires ids != [] && get(ids[0]).Full? && first == ToNewsletter(decode, ids[0], get(ids[0]).payload)
    requires RecordsUpTo(decode, get, ids[1..], r)
    ensures RecordsUpTo(decode, get, ids, Batch([first] + r.records, r.complete))
  {
    var tail := ids[1..];
    var b := Batch([first] + r.records, r.complete);
    forall k | 1 <= k < |b.records|
      ensures get(ids[k]).Full? && b.records[k] == ToNewsletter(decode, ids[k], get(ids[k]).payload)
    {
      assert b.records[k] == r.records[k - 1];
      assert ids[k] == tail[k - 1];
    }
    if !b.complete {
      assert ids[|b.records|] == tail[|r.records|];
    }
  }

  /** A page is complete exactly when every fetch on it succeeds. */
  lemma {:induction false} RecordsComplete(decode: string -> string, get: string -> GetReply, ids: seq<string>)
    ensures Records(decode, get, ids).complete <==> forall k :: 0 <= k < |ids| ==> get(ids[k]).Full?
    decreases |ids|
  {
    if ids != [] && get(ids[0]).Full? {
      var tail := ids[1..];
      RecordsComplete(decode, get, tail);
      assert forall k :: 1 <= k < |ids| ==> ids[k] == tail[k - 1];
    }
  }

  /** What the whole listing gave: the records, and the page token each list
      request carried (`None` for the first). */
  datatype Fetched = Fetched(newsletters: seq<Newsletter>, tokens: seq<Option<string>>)

  /** The page loop of `fetch_newsletters` against the list replies in the
      order the server gives them, starting with the request that carries
      `token`. It stops at an error (keeping what it has), at a page without
      messages, after a page without a next-page token, or when the replies
      run out. */
  function FetchPages(decode: string -> string, get: string -> GetReply, pages: seq<ListReply>,
                      token: Option<string>): Fetched
    decreases |pages|
  {
    if pages == [] then Fetched([], [token])
    else
      match pages[0]
      case ListFailed => Fetched([], [token])
      case Page(ids, next) =>
        if ids == [] then Fetched([], [token])
        else
          var batch := Records(decode, get, ids);
          if !batch.complete || !Truthy(next) then Fetched(batch.records, [token])
          else
            var rest := FetchPages(decode, get, pages[1..], next);
            Fetched(batch.records + rest.newsletters, [token] + rest.tokens)
  }

  /** The message ids the listing offered, page after page. */
  function ListedIds(pages: seq<ListReply>): seq<string> {
    if pages == [] then []
    else (if pages[0].Page? then pages[0].ids else []) + ListedIds(pages[1..])
  }

  /** The records follow the listing: their ids are a prefix of the ids of
      the pages, in order. */
  lemma {:induction false} FetchedFollowsListing(decode: string -> string, get: string -> GetReply,
                                                 pages: seq<ListReply>, token: Option<string>)
    ensures MessageIds(FetchPages(decode, get, pages, token).newsletters) <= ListedIds(pages)
    decreases |pages|
  {
    if pages != [] && pages[0].Page? && pages[0].ids != [] {
      var ids := pages[0].ids;
      var batch := Records(decode, get, ids);
      RecordsFollowIds(decode, get, ids);
      if batch.complete && Truthy(pages[0].nextPageToken) {
        var rest := FetchPages(decode, get, pages[1..], pages[0].nextPageToken);
        FetchedFollowsListing(decode, get, pages[1..], pages[0].nextPageToken);
        MessageIdsAppend(batch.records, rest.newsletters);
      }
    }
  }

  /** Nothing goes wrong in the listing: every reply is a page of messages
      whose fetches all succeed, and every page but the last names a next
      page. */
  predicate ListingSucceeds(get: string -> GetReply, pages: seq<ListReply>) {
    forall j :: 0 <= j < |pages| ==>
      && pages[j].Page? && pages[j].ids != []
      && (forall k :: 0 <= k < |pages[j].ids| ==> get(pages[j].ids[k]).Full?)
      && (j < |pages| - 1 ==> Truthy(pages[j].nextPageToken))
  }

  /** When nothing goes wrong, every listed message is fetched: the records
      are one per listed id, page after page, in order. */
  lemma {:induction false} FetchesEveryListedId(decode: string -> string, get: string -> GetReply,
                                                pages: seq<ListReply>, token: Option<string>)
    requires ListingSucceeds(get, pages)
    ensures MessageIds(FetchPages(decode, get, pages, token).newsletters) == ListedIds(pages)
    decreases |pages|
  {
    if pages != [] {
      var ids := pages[0].ids;
      var next := pages[0].nextPageToken;
      var batch := Records(decode, get, ids);
      RecordsComplete(decode, get, ids);
      RecordsFollowIds(decode, get, ids);
      assert ListedIds(pages) == ids + ListedIds(pages[1..]);
      if Truthy(next) {
        var rest := FetchPages(decode, get, pages[1..], next);
        assert ListingSucceeds(get, pages[1..]) by {
          forall j | 0 <= j < |pages| - 1 ensures pages[1..][j] == pages[j + 1] { }
        }
        FetchesEveryListedId(decode, get, pages[1..], next);
        FetchPagesUnfold(decode, get, pages, token, batch);
        MessageIdsAppend(batch.records, rest.newsletters);
      } else {
        assert |pages| == 1;
        assert ListedIds(pages[1..]) == [];
        assert ids + [] == ids;
      }
    }
  }

  lemma {:induction false} MessageIdsAppend(a: seq<Newsletter>, b: seq<Newsletter>)
    ensures MessageIds(a + b) == MessageIds(a) + MessageIds(b)
    decreases |a|
  {
    if a == [] {
      assert a + b == b;
    } else {
      assert (a + b)[0] == a[0];
      assert (a + b)[1..] == a[1..] + b;
      MessageIdsAppend(a[1..], b);
    }
  }

  /** The first list request carries no token, every later one the truthy
      token of the page before, and there is one request per reply at most,
      plus the one that found the replies exhausted. */
  lemma {:induction false} TokensFollowPages(decode: string -> string, get: string -> GetReply,
                                             pages: seq<ListReply>, token: Option<string>)
    ensures var ts := FetchPages(decode, get, pages, token).tokens;
            && 1 <= |ts| <= |pages| + 1 && ts[0] == token
            && (forall j :: 0 <= j < |ts| - 1 ==> pages[j].Page? && pages[j].nextPageToken == ts[j + 1])
            && (forall k :: 1 <= k < |ts| ==> Truthy(ts[k]))
    decreases |pages|
  {
    if pages != [] && pages[0].Page? && pages[0].ids != [] {
      var next := pages[0].nextPageToken;
      var batch := Records(decode, get, pages[0].ids);
      if batch.complete && Truthy(next) {
        TokensFollowPages(decode, get, pages[1..], next);
        var rest := FetchPages(decode, get, pages[1..], next).tokens;
        var ts := FetchPages(decode, get, pages, token).tokens;
        assert ts == [token] + rest;
        forall j | 0 <= j < |ts| - 1
          ensures pages[j].Page? && pages[j].nextPageToken == ts[j + 1]
        {
          if j > 0 {
            assert pages[1..][j - 1] == pages[j];
          }
        }
      }
    }
  }

  /** The `for msg in messages` loop: each id fetched and its record kept,
      until a fetch fails. */
  method FetchPage(decode: string -> string, get: string -> GetReply, ids: seq<string>)
    returns (records: seq<Newsletter>, complete: bool)
    ensures Batch(records, complete) == Records(decode, get, ids)
  {
    records := [];
    for i := 0 to |ids|
      invariant Records(decode, get, ids) ==
                  Batch(records + Records(decode, get, ids[i..]).records, Records(decode, get, ids[i..]).complete)
    {
      var reply := get(ids[i]);
      assert ids[i..][1..] == ids[i + 1..];
      if reply.GetFailed? {
        return records, false;
      }
      var nl := ToNewsletter(decode, ids[i], reply.payload);
      records := records + [nl];
    }
    assert ids[|ids|..] == [];
    complete := true;
  }

  /** The listing ends here: no reply left, an error, or a page without
      messages. */
  lemma FetchPagesStops(decode: string -> string, get: string -> GetReply, pages: seq<ListReply>,
                        token: Option<string>)
    requires pages == [] || pages[0].ListFailed? || pages[0].ids == []
    ensures FetchPages(decode, get, pages, token) == Fetched([], [token])
  {
  }

  /** After a page with a failed fetch or without a next-page token the
      listing ends with that page's records. */
  lemma FetchPagesEndsAt(decode: string -> string, get: string -> GetReply, pages: seq<ListReply>,
                         token: Option<string>, batch: Batch)
    requires pages != [] && pages[0].Page? && pages[0].ids != []
    requires batch == Records(decode, get, pages[0].ids)
    requires !batch.complete || !Truthy(pages[0].nextPageToken)
    ensures FetchPages(decode, get, pages, token) == Fetched(batch.records, [token])
  {
  }

  /** After a page whose fetches all succeeded and that names a next page
      the listing goes on from that page; stated after what was gathered
      before, `done` and `asked`. */
  lemma FetchPagesGoesOn(decode: string -> string, get: string -> GetReply, pages: seq<ListReply>,
                         token: Option<string>, batch: Batch,
                         done: seq<Newsletter>, asked: seq<Option<string>>)
    requires pages != [] && pages[0].Page? && pages[0].ids != []
    requires batch == Records(decode, get, pages[0].ids)
    requires batch.complete && Truthy(pages[0].nextPageToken)
    ensures var all := FetchPages(decode, get, pages, token);
            var rest := FetchPages(decode, get, pages[1..], pages[0].nextPageToken);
            done + all.newsletters == (done + batch.records) + rest.newsletters
            && asked + all.tokens == (asked + [token]) + rest.tokens
  {
    var rest := FetchPages(decode, get, pages[1..], pages[0].nextPageToken);
    FetchPagesUnfold(decode, get, pages, token, batch);
    AppendAssoc(done, batch.records, rest.newsletters);
    AppendAssoc(asked, [token], rest.tokens);
  }

  /** One unfolding of `FetchPages` past a complete page with a next token. */
  lemma FetchPagesUnfold(decode: string -> string, get: string -> GetReply, pages: seq<ListReply>,
                         token: Option<string>, batch: Batch)
    requires pages != [] && pages[0].Page? && pages[0].ids != []
    requires batch == Records(decode, get, pages[0].ids)
    requires batch.complete && Truthy(pages[0].nextPageToken)
    ensures var rest := FetchPages(decode, get, pages[1..], pages[0].nextPageToken);
            FetchPages(decode, get, pages, token) == Fetched(batch.records + rest.newsletters, [token] + rest.tokens)
  {
  }

  /** `fetch_newsletters` after the query is built: list a page, fetch its
      messages, follow the next-page token; an error ends the listing and
      what was gathered is returned. */
  method FetchNewsletters(decode: string -> string, get: string -> GetReply, pages: seq<ListReply>)
    returns (newsletters: seq<Newsletter>, ghost tokens: seq<Option<string>>)
    ensures newsletters == FetchPages(decode, get, pages, None).newsletters
    ensures tokens == FetchPages(decode, get, pages, None).tokens
  {
    newsletters, tokens := [], [];
    var token: Option<string> := None;
    var p := 0;
    ghost var rest := FetchPages(decode, get, pages, None);
    while true
      invariant p <= |pages|
      invariant rest == FetchPages(decode, get, pages[p..], token)
      invariant FetchPages(decode, get, pages, None) ==
                  Fetched(newsletters + rest.newsletters, tokens + rest.tokens)
      decreases |pages| - p
    {
      if p == |pages| || pages[p].ListFailed? || pages[p].ids == [] {
        FetchPagesStops(decode, get, pages[p..], token);
        assert newsletters + rest.newsletters == newsletters;
        tokens := tokens + [token];
        return;
      }
      var results := pages[p];
      var messages := results.ids;
      var records, complete := FetchPage(decode, get, messages);
      var next := results.nextPageToken;
      if !complete || !(next.Some? && next.value != "") {
        FetchPagesEndsAt(decode, get, pages[p..], token, Batch(records, complete));
        newsletters := newsletters + records;
        tokens := tokens + [token];
        return;
      }
      FetchPagesGoesOn(decode, get, pages[p..], token, Batch(records, complete), newsletters, tokens);
      newsletters := newsletters + records;
      tokens := tokens + [token];
      assert pages[p..][1..] == pages[p + 1..];
      rest := FetchPages(decode, get, pages[p + 1..], next);
      token := next;
      p := p + 1;
    }
  }
}
