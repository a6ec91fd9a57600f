/** The daily digest of `process_newsletters` (main.py:316-368): a header
 *  message, one message per newsletter with its summary or a notice that
 *  none is available, and a closing statistics message, all sent to one
 *  Telegram chat in that order. */
module Digest {
  import opened PyStr
  import Cleanup
  import opened Fallback
  import Fetch

  /** One record of `fetch_newsletters`. */
  type Newsletter = Fetch.Newsletter

  /** A message of the digest, as composed; `Text` gives the words sent. */
  datatype Message =
    | Header(date: string, count: nat)
    | EmptyDay(date: string)
    | Record(index: nat, total: nat, newsletter: Newsletter, summary: Option<string>)
    | Statistics(successful: nat, failed: nat, total: nat)

  /** The Telegram chat as `send_to_telegram` sees it: the messages delivered
      so far, and whether the bot token and chat id are both set. */
  class Outbox {
    var sent: seq<Message>
    const configured: bool

    constructor(botToken: Option<string>, chatId: Option<string>)
      ensures configured == (Truthy(botToken) && Truthy(chatId))
      ensures sent == []
    {
      configured := Truthy(botToken) && Truthy(chatId);
      sent := [];
    }

    /** `send_to_telegram`: without credentials the message is dropped. */
    method Send(message: Message)
      modifies this
      ensures sent == old(sent) + (if configured then [message] else [])
    {
      if configured {
        sent := sent + [message];
      }
    }
  }

  /** The display name of a sender: for `Name <address>` the text before the
      first `<`, stripped; any other sender string as it is. */
  function SenderName(sender: string): string {
    if '<' in sender && '>' in sender then Strip(Split(sender, '<')[0]) else sender
  }

  /** The name is the stripped text before the first `<`, and holds no `<`;
      a sender without both brackets is kept whole. */
  lemma SenderNameRule(sender: string)
    ensures '<' in sender && '>' in sender ==>
              SenderName(sender) == Strip(sender[..IndexOf(sender, '<')]) && '<' !in SenderName(sender)
    ensures !('<' in sender && '>' in sender) ==> SenderName(sender) == sender
  {
    if '<' in sender && '>' in sender {
      var first := Split(sender, '<')[0];
      assert first == sender[..IndexOf(sender, '<')];
      var i, j := StripSlice(first);
      assert forall m :: 0 <= m < j - i ==> Strip(first)[m] == first[i + m];
    }
  }

  const GmailInbox: string := "https://mail.google.com/mail/u/0/#inbox/"

  /** The link that opens a message in the Gmail web client. */
  function EmailLink(messageId: string): string {
    GmailInbox + messageId
  }

  /** The link ends with the message id, so different messages get different links. */
  lemma EmailLinkInjective(a: string, b: string)
    ensures EmailLink(a) == EmailLink(b) <==> a == b
  {
    if EmailLink(a) == EmailLink(b) {
      assert a == EmailLink(a)[|GmailInbox|..];
    }
  }

  /** `if summary:` — a summary counts only when present and non-empty. */
  predicate Summarized(summary: Option<string>) {
    summary.Some? && summary.value != ""
  }

  const NoNewslettersNote: string := "\n\nNo newsletters received yesterday."
  const SummaryUnavailable: string := "\n\n\U{26A0}\U{FE0F} Summary unavailable (model limit reached)"
  const SummaryHeading: string := "\n\n\U{1F4DD} Summary:\n"

  /** The part of a newsletter's message that does not depend on its summary. */
  function RecordHead(i: nat, n: nat, nl: Newsletter): string {
    "\U{1F4E7} Newsletter " + NatToString(i) + "/" + NatToString(n)
    + "\n\n\U{1F464} From: " + SenderName(nl.sender)
    + "\n\U{1F4CB} Subject: " + nl.subject
    + "\n\U{1F517} [View Email](" + EmailLink(nl.messageId) + ")"
  }

  function HeaderText(date: string, n: nat): string {
    "\U{1F4C5} Daily Newsletter Digest\n\U{1F4C6} " + date + "\n\U{1F4CA} " + NatToString(n) + " newsletters found"
  }

  /** The words of a message. */
  function Text(m: Message): string {
    match m
    case Header(date, n) => HeaderText(date, n)
    case EmptyDay(date) => HeaderText(date, 0) + NoNewslettersNote
    case Record(i, n, nl, summary) =>
      RecordHead(i, n, nl) + if Summarized(summary) then SummaryHeading + summary.value else SummaryUnavailable
    case Statistics(successful, failed, n) =>
      "\U{1F4CA} Summary Statistics:\n\U{2705} " + NatToString(successful) + " newsletters summarized\n\U{26A0}\U{FE0F} "
      + NatToString(failed) + " newsletters without summary\n\U{1F4E7} Total processed: " + NatToString(n)
  }

  /** A newsletter's message is its head followed by the summary under a
      heading when there is one, otherwise by the unavailable notice. */
  lemma RecordText(i: nat, n: nat, nl: Newsletter, summary: Option<string>)
    ensures var t := Text(Record(i, n, nl, summary));
            && RecordHead(i, n, nl) <= t
            && (Summarized(summary) ==> t[|RecordHead(i, n, nl)|..] == SummaryHeading + summary.value)
            && (!Summarized(summary) ==> t[|RecordHead(i, n, nl)|..] == SummaryUnavailable)
  {
    var head := RecordHead(i, n, nl);
    var tail := if Summarized(summary) then SummaryHeading + summary.value else SummaryUnavailable;
    assert (head + tail)[|head|..] == tail;
  }

  /** The summary can be read back from the message: two messages about the
      same newsletter that carry summaries are equal exactly when the
      summaries are. */
  lemma RecordTextDeterminesSummary(i: nat, n: nat, nl: Newsletter, a: Option<string>, b: Option<string>)
    requires Summarized(a) && Summarized(b)
    ensures Text(Record(i, n, nl, a)) == Text(Record(i, n, nl, b)) <==> a == b
  {
    if Text(Record(i, n, nl, a)) == Text(Record(i, n, nl, b)) {
      RecordText(i, n, nl, a);
      RecordText(i, n, nl, b);
      var h := |SummaryHeading|;
      assert a.value == (SummaryHeading + a.value)[h..];
      assert b.value == (SummaryHeading + b.value)[h..];
    }
  }

  /** How many of the summaries count as summaries. */
  function CountSummarized(summaries: seq<Option<string>>): (c: nat)
    ensures c <= |summaries|
  {
    if summaries == [] then 0
    else CountSummarized(summaries[..|summaries| - 1]) + (if Summarized(summaries[|summaries| - 1]) then 1 else 0)
  }

  /** The positions whose summary counts. */
  ghost function SummarizedAt(summaries: seq<Option<string>>): set<nat> {
    set k: nat | k < |summaries| && Summarized(summaries[k])
  }

  /** The count is the number of positions holding a summary. */
  lemma {:induction false} CountSummarizedCounts(summaries: seq<Option<string>>)
    ensures CountSummarized(summaries) == |SummarizedAt(summaries)|
  {
    if summaries != [] {
      var last := |summaries| - 1;
      var front := summaries[..last];
      CountSummarizedCounts(front);
      var s := SummarizedAt(summaries);
      var f := SummarizedAt(front);
      if Summarized(summaries[last]) {
        assert s == f + {last};
      } else {
        assert s == f;
      }
    }
  }

  /** The messages for the newsletters, numbered from 1, out of `n`. */
  function RecordMessages(nls: seq<Newsletter>, summaries: seq<Option<string>>, n: nat): (ms: seq<Message>)
    requires |summaries| == |nls|
    ensures |ms| == |nls|
  {
    if nls == [] then []
    else
      var k := |nls| - 1;
      RecordMessages(nls[..k], summaries[..k], n) + [Record(k + 1, n, nls[k], summaries[k])]
  }

  /** Message `k` of the list is about newsletter `k`. */
  lemma {:induction false} RecordMessagesAt(nls: seq<Newsletter>, summaries: seq<Option<string>>, n: nat, k: nat)
    requires |summaries| == |nls| && k < |nls|
    ensures RecordMessages(nls, summaries, n)[k] == Record(k + 1, n, nls[k], summaries[k])
    decreases |nls|
  {
    var last := |nls| - 1;
    if k < last {
      RecordMessagesAt(nls[..last], summaries[..last], n, k);
    }
  }

  /** Everything the digest sends, in order. */
  function DigestMessages(date: string, nls: seq<Newsletter>, summaries: seq<Option<string>>): seq<Message>
    requires |summaries| == |nls|
  {
    var n := |nls|;
    if n == 0 then [EmptyDay(date)]
    else
      var ok := CountSummarized(summaries);
      [Header(date, n)] + RecordMessages(nls, summaries, n) + [Statistics(ok, n - ok, n)]
  }

  /** An empty day yields one message; otherwise a header, one message per
      newsletter in order, and the statistics, whose two counts cover every
      newsletter. */
  lemma DigestShape(date: string, nls: seq<Newsletter>, summaries: seq<Option<string>>)
    requires |summaries| == |nls|
    ensures var ms := DigestMessages(date, nls, summaries);
            && |ms| == (if |nls| == 0 then 1 else |nls| + 2)
            && (|nls| == 0 ==> ms[0] == EmptyDay(date))
            && (|nls| > 0 ==> ms[0] == Header(date, |nls|))
            && (forall k :: 0 <= k < |nls| ==> ms[k + 1] == Record(k + 1, |nls|, nls[k], summaries[k]))
            && (|nls| > 0 ==> ms[|nls| + 1].Statistics?
                              && ms[|nls| + 1].successful == |SummarizedAt(summaries)|
                              && ms[|nls| + 1].successful + ms[|nls| + 1].failed == |nls|)
  {
    var ms := DigestMessages(date, nls, summaries);
    forall k | 0 <= k < |nls| ensures ms[k + 1] == Record(k + 1, |nls|, nls[k], summaries[k]) {
      RecordMessagesAt(nls, summaries, |nls|, k);
    }
    CountSummarizedCounts(summaries);
  }

  /** One more summary for the count. */
  lemma CountSummarizedSnoc(summaries: seq<Option<string>>, s: Option<string>)
    ensures CountSummarized(summaries + [s]) == CountSummarized(summaries) + (if Summarized(s) then 1 else 0)
  {
    assert (summaries + [s])[..|summaries|] == summaries;
  }

  /** One more newsletter for the list of messages. */
  lemma RecordMessagesSnoc(nls: seq<Newsletter>, summaries: seq<Option<string>>, n: nat, k: nat, s: Option<string>)
    requires k < |nls| && |summaries| == k
    ensures RecordMessages(nls[..k + 1], summaries + [s], n) ==
              RecordMessages(nls[..k], summaries, n) + [Record(k + 1, n, nls[k], s)]
  {
    assert nls[..k + 1][..k] == nls[..k];
    assert (summaries + [s])[..k] == summaries;
  }

  /** The summary `summarize_text` gives newsletter `k` (from 0); the network
      may answer differently for each newsletter, so it is indexed by the
      position (from 1) of the newsletter in the digest. */
  ghost function SummaryOf(u: Cleanup.UnicodeDb, cohereKey: Option<string>, nls: seq<Newsletter>,
                           net: nat -> Request -> Reply, k: nat): Option<string>
    requires k < |nls|
  {
    Summarize(u, cohereKey, nls[k].body, net(k + 1)).summary
  }

  /** `summaries` are the summaries of the first `|summaries|` newsletters. */
  ghost predicate SummariesOf(u: Cleanup.UnicodeDb, cohereKey: Option<string>, nls: seq<Newsletter>,
                              net: nat -> Request -> Reply, summaries: seq<Option<string>>)
    decreases |summaries|
  {
    && |summaries| <= |nls|
    && (summaries != [] ==>
          var last := |summaries| - 1;
          && SummariesOf(u, cohereKey, nls, net, summaries[..last])
          && summaries[last] == SummaryOf(u, cohereKey, nls, net, last))
  }

  /** Summary `k` is the one `summarize_text` gives newsletter `k`. */
  lemma {:induction false} SummariesOfAt(u: Cleanup.UnicodeDb, cohereKey: Option<string>, nls: seq<Newsletter>,
                                         net: nat -> Request -> Reply, summaries: seq<Option<string>>, k: nat)
    requires SummariesOf(u, cohereKey, nls, net, summaries) && k < |summaries|
    ensures summaries[k] == Summarize(u, cohereKey, nls[k].body, net(k + 1)).summary
    decreases |summaries|
  {
    var last := |summaries| - 1;
    if k < last {
      SummariesOfAt(u, cohereKey, nls, net, summaries[..last], k);
    }
  }

  /** One more summary. */
  lemma SummariesOfSnoc(u: Cleanup.UnicodeDb, cohereKey: Option<string>, nls: seq<Newsletter>,
                        net: nat -> Request -> Reply, summaries: seq<Option<string>>, s: Option<string>)
    requires SummariesOf(u, cohereKey, nls, net, summaries) && |summaries| < |nls|
    requires s == SummaryOf(u, cohereKey, nls, net, |summaries|)
    ensures SummariesOf(u, cohereKey, nls, net, summaries + [s])
  {
    assert (summaries + [s])[..|summaries|] == summaries;
  }

  /** One pass of the loop of `process_newsletters`: the next newsletter
      after those already summarised is summarised and its message sent. */
  method SendRecord(outbox: Outbox, u: Cleanup.UnicodeDb, cohereKey: Option<string>,
                    newsletters: seq<Newsletter>, net: nat -> Request -> Reply,
                    k: nat, ghost summaries: seq<Option<string>>)
    returns (summary: Option<string>)
    requires SummariesOf(u, cohereKey, newsletters, net, summaries) && |summaries| == k < |newsletters|
    modifies outbox
    ensures SummariesOf(u, cohereKey, newsletters, net, summaries + [summary])
    ensures outbox.sent == old(outbox.sent) +
              (if outbox.configured then [Record(k + 1, |newsletters|, newsletters[k], summary)] else [])
  {
    var i := k + 1;
    var newsletter := newsletters[k];
    var posted;
    summary, posted := SummarizeText(u, cohereKey, newsletter.body, net(i));
    SummariesOfSnoc(u, cohereKey, newsletters, net, summaries, summary);
    outbox.Send(Record(i, |newsletters|, newsletter, summary));
  }

  /** The loop of `process_newsletters`: each newsletter summarised and its
      message sent, the summaries counted. */
  method SendRecords(outbox: Outbox, u: Cleanup.UnicodeDb, cohereKey: Option<string>,
                     newsletters: seq<Newsletter>, net: nat -> Request -> Reply)
    returns (successful: nat, failed: nat, ghost summaries: seq<Option<string>>)
    modifies outbox
    ensures SummariesOf(u, cohereKey, newsletters, net, summaries) && |summaries| == |newsletters|
    ensures outbox.sent == old(outbox.sent) +
              (if outbox.configured then RecordMessages(newsletters, summaries, |newsletters|) else [])
    ensures successful == CountSummarized(summaries)
    ensures successful + failed == |newsletters|
  {
    summaries := [];
    var n := |newsletters|;
    successful, failed := 0, 0;
    for k := 0 to n
      invariant |summaries| == k
      invariant SummariesOf(u, cohereKey, newsletters, net, summaries)
      invariant outbox.sent == old(outbox.sent) +
                  (if outbox.configured then RecordMessages(newsletters[..k], summaries, n) else [])
      invariant successful == CountSummarized(summaries) && successful + failed == k
    {
      var summary := SendRecord(outbox, u, cohereKey, newsletters, net, k, summaries);
      RecordMessagesSnoc(newsletters, summaries, n, k, summary);
      if Summarized(summary) {
        successful := successful + 1;
      } else {
        failed := failed + 1;
      }
      CountSummarizedSnoc(summaries, summary);
      summaries := summaries + [summary];
    }
    assert newsletters[..n] == newsletters;
  }

  /** `process_newsletters`: the header, then each newsletter summarised and
      sent, then the statistics; the two counters it keeps are returned, with
      the summaries it obtained. */
  method ProcessNewsletters(outbox: Outbox, u: Cleanup.UnicodeDb, cohereKey: Option<string>, date: string,
                            newsletters: seq<Newsletter>, net: nat -> Request -> Reply)
    returns (successful: nat, failed: nat, ghost summaries: seq<Option<string>>)
    modifies outbox
    ensures SummariesOf(u, cohereKey, newsletters, net, summaries) && |summaries| == |newsletters|
    ensures outbox.sent == old(outbox.sent) +
              (if outbox.configured then DigestMessages(date, newsletters, summaries) else [])
    ensures successful == CountSummarized(summaries)
    ensures successful + failed == |newsletters|
  {
    var n := |newsletters|;
    if n == 0 {
      outbox.Send(EmptyDay(date));
      return 0, 0, [];
    }
    outbox.Send(Header(date, n));
    successful, failed, summaries := SendRecords(outbox, u, cohereKey, newsletters, net);
    outbox.Send(Statistics(successful, failed, n));
    assert outbox.sent == old(outbox.sent) + (if outbox.configured then [Header(date, n)] + RecordMessages(newsletters, summaries, n) + [Statistics(successful, failed, n)] else []);
  }
}
