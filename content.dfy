/** The content script (content.js): the `document.cookie` parser, the
    page-info cookie count, the one-second polling differ and the filter on
    page messages. `document.cookie`, `window.location` and
    `decodeURIComponent` are parameters. */
module Content {
  import opened Wrappers
  import opened Strings

  /** The parts of `window.location` the script reads. */
  datatype Location = Location(href: string, hostname: string, protocol: string, pathname: string)

  /** A record built from `document.cookie`. */
  datatype PageCookie = PageCookie(
    name: string, value: string, domain: string, path: string,
    secure: bool, httpOnly: bool, sameSite: string, source: string)

  /** `decodeURIComponent`: a partial function given by the caller; `Err`
      carries the message of the error it throws. */
  type Decoder = string -> Result<string, string>

  /** The text before the first '=' of a trimmed segment. */
  function SegmentName(segment: string): string
  {
    Split(Trim(segment), '=')[0]
  }

  /** The rest of the trimmed segment after its first '=' (later '=' kept),
      or "" when it has none: `valueParts.join('=')`. */
  function SegmentValue(segment: string): string
  {
    Join(Split(Trim(segment), '=')[1..], "=")
  }

  /** The attributes every parsed record carries. */
  function Record(name: string, value: string, loc: Location): PageCookie
  {
    PageCookie(name, value, loc.hostname, "/", loc.protocol == "https:", false, "Lax", "document.cookie")
  }

  datatype SegmentOutcome = Skipped | Parsed(cookie: PageCookie) | DecodeFailed(error: string)

  /** The attributes every parsed record carries: the page's host as domain,
      path "/", `secure` exactly on https, never HTTP-only, sameSite "Lax". */
  predicate HasPageAttributes(c: PageCookie, loc: Location)
  {
    && c.domain == loc.hostname && c.path == "/" && (c.secure <==> loc.protocol == "https:")
    && !c.httpOnly && c.sameSite == "Lax" && c.source == "document.cookie"
  }

  /** One iteration of the loop in `getDocumentCookies`: a segment whose name
      is empty is skipped; an empty value is "" without decoding; any other
      value is trimmed and decoded, and a decoding error aborts the parse. */
  function ParseSegment(segment: string, loc: Location, decode: Decoder): (o: SegmentOutcome)
    ensures o.Parsed? ==> HasPageAttributes(o.cookie, loc)
    ensures o.Skipped? <==> SegmentName(segment) == ""
    ensures o.Parsed? ==> o.cookie.name == Trim(SegmentName(segment))
    ensures o.Parsed? && SegmentValue(segment) == "" ==> o.cookie.value == ""
    ensures o.Parsed? && SegmentValue(segment) != "" ==> decode(Trim(SegmentValue(segment))) == Ok(o.cookie.value)
    ensures o.DecodeFailed? <==>
      SegmentName(segment) != "" && SegmentValue(segment) != "" && decode(Trim(SegmentValue(segment))).Err?
    ensures o.DecodeFailed? ==> decode(Trim(SegmentValue(segment))) == Err(o.error)
  {
    var name := SegmentName(segment);
    var value := SegmentValue(segment);
    if name == "" then Skipped
    else if value == "" then Parsed(Record(Trim(name), "", loc))
    else
      match decode(Trim(value))
      case Ok(v) => Parsed(Record(Trim(name), v, loc))
      case Err(e) => DecodeFailed(e)
  }

  /** The outcome of each segment, in order. */
  function Outcomes(segments: seq<string>, loc: Location, decode: Decoder): seq<SegmentOutcome>
  {
    seq(|segments|, i requires 0 <= i < |segments| => ParseSegment(segments[i], loc, decode))
  }

  /** Reading the outcomes off one by one. */
  lemma OutcomesAt(segments: seq<string>, loc: Location, decode: Decoder)
    ensures |Outcomes(segments, loc, decode)| == |segments|
    ensures forall i :: 0 <= i < |segments| ==> Outcomes(segments, loc, decode)[i] == ParseSegment(segments[i], loc, decode)
  {
  }

  function ParsedCount(os: seq<SegmentOutcome>): nat
  {
    if os == [] then 0 else (if os[0].Parsed? then 1 else 0) + ParsedCount(os[1..])
  }

  /** The accumulation of the loop: the parsed records in segment order, or
      the error of the first segment that failed to decode. */
  function Collect(os: seq<SegmentOutcome>): (r: Result<seq<PageCookie>, string>)
    ensures r.Ok? ==> |r.value| == ParsedCount(os)
    ensures r.Ok? ==> forall c :: c in r.value ==> Parsed(c) in os
    decreases |os|
  {
    if os == [] then Ok([])
    else
      var rest := Collect(os[1..]);
      match os[0]
      case Skipped => rest
      case DecodeFailed(e) => Err(e)
      case Parsed(c) => if rest.Ok? then Ok([c] + rest.value) else rest
  }

  /** What `getDocumentCookies` returns (or throws) for a cookie string. */
  function DocumentCookies(cookieString: string, loc: Location, decode: Decoder): Result<seq<PageCookie>, string>
  {
    if cookieString == "" then Ok([]) else Collect(Outcomes(Split(cookieString, ';'), loc, decode))
  }

  /** Prefix already parsed records to the result of the rest of the loop. */
  function Then(done: seq<PageCookie>, rest: Result<seq<PageCookie>, string>): Result<seq<PageCookie>, string>
  {
    if rest.Ok? then Ok(done + rest.value) else rest
  }

  lemma ThenNothing(r: Result<seq<PageCookie>, string>)
    ensures Then([], r) == r
  {
    if r.Ok? { assert [] + r.value == r.value; }
  }

  /** One iteration that does not throw moves the segment's record, if any,
      from the rest of the loop to the records already pushed. */
  lemma ThenStep(done: seq<PageCookie>, os: seq<SegmentOutcome>)
    requires os != [] && !os[0].DecodeFailed?
    ensures Then(done, Collect(os)) == Then(done + (if os[0].Parsed? then [os[0].cookie] else []), Collect(os[1..]))
  {
    var rest := Collect(os[1..]);
    if os[0].Parsed? && rest.Ok? {
      assert done + ([os[0].cookie] + rest.value) == done + [os[0].cookie] + rest.value;
    }
    if os[0].Skipped? { assert done + [] == done; }
  }

  /** `getDocumentCookies`, the loop that pushes one record per named segment
      and throws out of the loop when a value fails to decode. */
  method GetDocumentCookies(cookieString: string, loc: Location, decode: Decoder)
      returns (r: Result<seq<PageCookie>, string>)
    ensures r == DocumentCookies(cookieString, loc, decode)
  {
    if cookieString == "" {
      return Ok([]);
    }
    var cookies: seq<PageCookie> := [];
    var cookiePairs := Split(cookieString, ';');
    ghost var os := Outcomes(cookiePairs, loc, decode);
    OutcomesAt(cookiePairs, loc, decode);
    var i := 0;
    assert os[0..] == os;
    ThenNothing(Collect(os));
    while i < |cookiePairs|
      invariant 0 <= i <= |cookiePairs|
      invariant Then(cookies, Collect(os[i..])) == Collect(os)
    {
      var outcome := ParseSegment(cookiePairs[i], loc, decode);
      assert os[i..][0] == outcome && os[i..][1..] == os[i + 1..];
      if outcome.DecodeFailed? {
        assert Collect(os[i..]) == Err(outcome.error);
        return Err(outcome.error);
      }
      ThenStep(cookies, os[i..]);
      if outcome.Parsed? {
        cookies := cookies + [outcome.cookie];
      }
      i := i + 1;
    }
    assert os[i..] == [];
    assert cookies + [] == cookies;
    r := Ok(cookies);
  }

  /** Every parsed record carries the fixed page attributes. */
  lemma ParsedRecordsHavePageAttributes(cookieString: string, loc: Location, decode: Decoder)
    requires DocumentCookies(cookieString, loc, decode).Ok?
    ensures forall c :: c in DocumentCookies(cookieString, loc, decode).value ==> HasPageAttributes(c, loc)
  {
    if cookieString != "" {
      var os := Outcomes(Split(cookieString, ';'), loc, decode);
      forall c | c in DocumentCookies(cookieString, loc, decode).value ensures HasPageAttributes(c, loc) {
        assert Parsed(c) in os;
        var i :| 0 <= i < |os| && os[i] == Parsed(c);
      }
    }
  }

  /** An empty cookie string parses to no records. */
  lemma EmptyStringParsesToNothing(loc: Location, decode: Decoder)
    ensures DocumentCookies("", loc, decode) == Ok([])
  {
  }

  /** A segment is cut at its first '=': the name holds no '=', and name,
      '=' and value put back together give the trimmed segment. A segment
      with no '=' has the value "". */
  lemma {:induction false} SegmentSplitsAtFirstEquals(segment: string)
    ensures '=' !in SegmentName(segment)
    ensures '=' in Trim(segment) ==> Trim(segment) == SegmentName(segment) + "=" + SegmentValue(segment)
    ensures '=' !in Trim(segment) ==> SegmentName(segment) == Trim(segment) && SegmentValue(segment) == ""
  {
    var t := Trim(segment);
    var parts := Split(t, '=');
    JoinSplit(t, '=');
    if |parts| == 1 {
      assert Join(parts, "=") == parts[0];
    } else {
      assert Join(parts, "=") == parts[0] + ['='] + Join(parts[1..], "=");
      assert '=' in t by {
        assert t[|parts[0]|] == '=';
      }
    }
  }

  /** The value keeps every '=' after the first: a segment that trims to
      `name=value`, where `name` holds no '=', has exactly that name and
      that value, whatever '=' the value holds ("c=x=y" has value "x=y"). */
  lemma ValueKeepsLaterEquals(segment: string, name: string, value: string)
    requires '=' !in name
    requires Trim(segment) == name + "=" + value
    ensures SegmentName(segment) == name && SegmentValue(segment) == value
  {
    var t := Trim(segment);
    assert t[|name|] == '=';
    assert t[..|name|] == name && t[|name| + 1..] == value;
    SplitFirst(t, '=', |name|);
    assert Split(t, '=')[1..] == Split(value, '=');
    JoinSplit(value, '=');
  }

  /** The loop throws exactly when some segment's value fails to decode. */
  lemma {:induction false} CollectFailsIff(os: seq<SegmentOutcome>)
    ensures Collect(os).Err? <==> exists i :: 0 <= i < |os| && os[i].DecodeFailed?
    decreases |os|
  {
    if os != [] {
      CollectFailsIff(os[1..]);
      if exists i :: 0 <= i < |os| && os[i].DecodeFailed? {
        var i :| 0 <= i < |os| && os[i].DecodeFailed?;
        if i > 0 {
          assert os[1..][i - 1] == os[i];
        }
      }
      if exists i :: 0 <= i < |os[1..]| && os[1..][i].DecodeFailed? {
        var i :| 0 <= i < |os[1..]| && os[1..][i].DecodeFailed?;
        assert os[i + 1] == os[1..][i];
      }
    }
  }

  /** A cookie string fails to parse exactly when one of its named segments
      has a value that `decodeURIComponent` rejects. */
  lemma ParseFailsIff(cookieString: string, loc: Location, decode: Decoder)
    ensures DocumentCookies(cookieString, loc, decode).Err? <==>
      cookieString != "" && SomeSegmentFails(Split(cookieString, ';'), loc, decode)
  {
    if cookieString != "" {
      SegmentsFailIff(Split(cookieString, ';'), loc, decode);
    }
  }

  predicate SomeSegmentFails(segments: seq<string>, loc: Location, decode: Decoder)
  {
    exists i :: 0 <= i < |segments| && ParseSegment(segments[i], loc, decode).DecodeFailed?
  }

  lemma SegmentsFailIff(segments: seq<string>, loc: Location, decode: Decoder)
    ensures Collect(Outcomes(segments, loc, decode)).Err? <==> SomeSegmentFails(segments, loc, decode)
  {
    CollectFailsIff(Outcomes(segments, loc, decode));
    FailedOutcomeIff(segments, loc, decode);
  }

  lemma FailedOutcomeIff(segments: seq<string>, loc: Location, decode: Decoder)
    ensures (exists i :: 0 <= i < |Outcomes(segments, loc, decode)| && Outcomes(segments, loc, decode)[i].DecodeFailed?) <==>
      (exists i :: 0 <= i < |segments| && ParseSegment(segments[i], loc, decode).DecodeFailed?)
  {
    var os := Outcomes(segments, loc, decode);
    OutcomesAt(segments, loc, decode);
    if exists i :: 0 <= i < |os| && os[i].DecodeFailed? {
      var i :| 0 <= i < |os| && os[i].DecodeFailed?;
      assert ParseSegment(segments[i], loc, decode).DecodeFailed?;
    }
    if exists i :: 0 <= i < |segments| && ParseSegment(segments[i], loc, decode).DecodeFailed? {
      var i :| 0 <= i < |segments| && ParseSegment(segments[i], loc, decode).DecodeFailed?;
      assert os[i].DecodeFailed?;
    }
  }

  /** One record per parsed segment, in order: the record of the i-th
      segment sits right after the records of the parsed segments before it. */
  lemma {:induction false} RecordOfSegment(os: seq<SegmentOutcome>, i: nat)
    requires Collect(os).Ok?
    requires i < |os| && os[i].Parsed?
    ensures ParsedCount(os[..i]) < |Collect(os).value|
    ensures Collect(os).value[ParsedCount(os[..i])] == os[i].cookie
    decreases i
  {
    if i == 0 {
      assert os[..0] == [];
    } else {
      var tail := os[1..];
      assert tail[i - 1] == os[i];
      assert Collect(tail).Ok?;
      RecordOfSegment(tail, i - 1);
      assert os[..i][1..] == tail[..i - 1];
    }
  }

  /** `getPageInfo().cookieCount`: the `;` segments that are non-blank after
      trimming. */
  function NonBlankCount(segments: seq<string>): (n: nat)
    ensures n <= |segments|
  {
    if segments == [] then 0
    else (if Trim(segments[0]) != "" then 1 else 0) + NonBlankCount(segments[1..])
  }

  function CookieCount(cookieString: string): nat
  {
    NonBlankCount(Split(cookieString, ';'))
  }

  /** A segment with a name is non-blank. */
  lemma NamedIsNonBlank(segment: string)
    requires SegmentName(segment) != ""
    ensures Trim(segment) != ""
  {
  }

  lemma {:induction false} ParsedAtMostNonBlank(segments: seq<string>, loc: Location, decode: Decoder)
    ensures ParsedCount(Outcomes(segments, loc, decode)) <= NonBlankCount(segments)
    decreases |segments|
  {
    if segments != [] {
      var os := Outcomes(segments, loc, decode);
      assert os[1..] == Outcomes(segments[1..], loc, decode);
      ParsedAtMostNonBlank(segments[1..], loc, decode);
      if os[0].Parsed? {
        NamedIsNonBlank(segments[0]);
      }
    }
  }

  /** The page-info count is at least the number of records parsed from the
      same string; an empty string counts 0. */
  lemma CookieCountBoundsParse(cookieString: string, loc: Location, decode: Decoder)
    requires DocumentCookies(cookieString, loc, decode).Ok?
    ensures |DocumentCookies(cookieString, loc, decode).value| <= CookieCount(cookieString)
  {
    if cookieString != "" {
      ParsedAtMostNonBlank(Split(cookieString, ';'), loc, decode);
    }
  }

  lemma EmptyStringCountsZero()
    ensures CookieCount("") == 0
  {
    assert Split("", ';') == [""];
    assert Trim("") == "";
  }

  /** The value of `getPageInfo`. */
  datatype PageInfo = PageInfo(url: string, hostname: string, protocol: string, pathname: string,
                               title: string, cookieCount: nat)

  function GetPageInfo(loc: Location, title: string, cookieString: string): (info: PageInfo)
    ensures info.url == loc.href && info.hostname == loc.hostname && info.protocol == loc.protocol
    ensures info.pathname == loc.pathname && info.title == title
    ensures info.cookieCount <= |Split(cookieString, ';')|
  {
    PageInfo(loc.href, loc.hostname, loc.protocol, loc.pathname, title, CookieCount(cookieString))
  }

  /** The reply the content script's `handleMessage` sends. */
  datatype ContentReply =
    | CookiesReply(cookies: seq<PageCookie>)
    | InjectedReply
    | PageInfoReply(info: PageInfo)
    | FailureReply(error: string)

  /** `handleMessage` of the content script. Injection itself is left out;
      its reply is the bare success. */
  function HandleContentMessage(action: string, cookieString: string, loc: Location, title: string,
                                decode: Decoder): (reply: ContentReply)
    ensures action == "getDocumentCookies" ==>
      (reply.FailureReply? <==> DocumentCookies(cookieString, loc, decode).Err?)
    ensures action != "getDocumentCookies" && action != "injectCookieMonitor" && action != "getPageInfo" ==>
      reply == FailureReply("Unknown action")
    ensures action == "getDocumentCookies" && DocumentCookies(cookieString, loc, decode).Ok? ==>
      reply == CookiesReply(DocumentCookies(cookieString, loc, decode).value)
    ensures action == "getDocumentCookies" && DocumentCookies(cookieString, loc, decode).Err? ==>
      reply == FailureReply(DocumentCookies(cookieString, loc, decode).error)
    ensures action == "injectCookieMonitor" ==> reply == InjectedReply
    ensures action == "getPageInfo" ==> reply.PageInfoReply? && reply.info.cookieCount == CookieCount(cookieString)
    ensures action == "getPageInfo" ==> reply == PageInfoReply(GetPageInfo(loc, title, cookieString))
  {
    match action
    case "getDocumentCookies" =>
      (match DocumentCookies(cookieString, loc, decode)
       case Ok(cookies) => CookiesReply(cookies)
       case Err(e) => FailureReply(e))
    case "injectCookieMonitor" => InjectedReply
    case "getPageInfo" => PageInfoReply(GetPageInfo(loc, title, cookieString))
    case _ => FailureReply("Unknown action")
  }

  /** The `documentCookieChanged` message a tick sends. */
  datatype CookieChange = CookieChange(oldCookies: string, newCookies: string, url: string)

  /** The polling monitor: `lastCookieString` and the messages handed to
      `chrome.runtime.sendMessage` so far (every send failure is swallowed,
      so a send changes nothing else). */
  class CookieMonitor {
    var lastCookieString: string
    var sent: seq<CookieChange>

    /** `monitorCookieChanges` stores the initial cookie string. */
    constructor (initial: string)
      ensures lastCookieString == initial && sent == []
    {
      lastCookieString := initial;
      sent := [];
    }

    /** One interval callback with the current `document.cookie`. */
    method Tick(current: string, url: string)
      modifies this
      ensures lastCookieString == current
      ensures sent == old(sent) + (if current != old(lastCookieString)
                                   then [CookieChange(old(lastCookieString), current, url)] else [])
    {
      if current != lastCookieString {
        sent := sent + [CookieChange(lastCookieString, current, url)];
        lastCookieString := current;
      }
    }

    /** The interval firing once per snapshot, all read on page `url`: the
        monitor sends exactly the messages of `Changes`. */
    method Poll(snapshots: seq<string>, url: string)
      modifies this
      ensures lastCookieString == Final(old(lastCookieString), snapshots)
      ensures sent == old(sent) + Messages(Changes(old(lastCookieString), snapshots), url)
    {
      ghost var start := lastCookieString;
      for i := 0 to |snapshots|
        invariant lastCookieString == Final(start, snapshots[..i])
        invariant sent == old(sent) + Messages(Changes(start, snapshots[..i]), url)
      {
        assert snapshots[..i + 1] == snapshots[..i] + [snapshots[i]];
        ChangesSnoc(start, snapshots[..i], snapshots[i]);
        MessagesAppend(Changes(start, snapshots[..i]),
                       if snapshots[i] != lastCookieString then [(lastCookieString, snapshots[i])] else [], url);
        Tick(snapshots[i], url);
      }
      assert snapshots[..|snapshots|] == snapshots;
    }
  }

  /** The messages sent for the (old, new) pairs `pairs` on page `url`. */
  function Messages(pairs: seq<(string, string)>, url: string): seq<CookieChange>
  {
    seq(|pairs|, k requires 0 <= k < |pairs| => CookieChange(pairs[k].0, pairs[k].1, url))
  }

  lemma MessagesAppend(a: seq<(string, string)>, b: seq<(string, string)>, url: string)
    ensures Messages(a + b, url) == Messages(a, url) + Messages(b, url)
  {
    var r, s := Messages(a + b, url), Messages(a, url) + Messages(b, url);
    forall k | 0 <= k < |r| ensures r[k] == s[k] {
      if k < |a| {
        assert (a + b)[k] == a[k];
      } else {
        assert (a + b)[k] == b[k - |a|];
      }
    }
  }

  /** The (old, new) pairs reported by ticks that read `snapshots` in turn,
      starting from stored string `last`. */
  function Changes(last: string, snapshots: seq<string>): seq<(string, string)>
    decreases |snapshots|
  {
    if snapshots == [] then []
    else (if snapshots[0] != last then [(last, snapshots[0])] else []) + Changes(snapshots[0], snapshots[1..])
  }

  /** The stored string after those ticks. */
  function Final(last: string, snapshots: seq<string>): string
  {
    if snapshots == [] then last else snapshots[|snapshots| - 1]
  }

  /** One more tick adds at most the one change from the stored string. */
  lemma {:induction false} ChangesSnoc(last: string, snapshots: seq<string>, current: string)
    ensures Changes(last, snapshots + [current]) == Changes(last, snapshots)
      + (if current != Final(last, snapshots) then [(Final(last, snapshots), current)] else [])
    decreases |snapshots|
  {
    if snapshots != [] {
      assert (snapshots + [current])[1..] == snapshots[1..] + [current];
      ChangesSnoc(snapshots[0], snapshots[1..], current);
      assert Final(snapshots[0], snapshots[1..]) == Final(last, snapshots);
    }
  }

  /** Reported changes never pair equal strings, they chain (each starts where
      the previous ended), the first starts at the initial string and the last
      ends at the final one. */
  lemma {:induction false} ChangesChain(last: string, snapshots: seq<string>)
    ensures var cs := Changes(last, snapshots);
      && (forall k :: 0 <= k < |cs| ==> cs[k].0 != cs[k].1)
      && (forall k :: 0 <= k < |cs| - 1 ==> cs[k].1 == cs[k + 1].0)
      && (cs != [] ==> cs[0].0 == last && cs[|cs| - 1].1 == Final(last, snapshots))
      && (cs == [] ==> Final(last, snapshots) == last)
    decreases |snapshots|
  {
    if snapshots != [] {
      var rest := snapshots[1..];
      ChangesChain(snapshots[0], rest);
      if rest != [] {
        assert Final(snapshots[0], rest) == Final(last, snapshots);
      }
    }
  }

  /** No tick notifies exactly when every snapshot equals the initial string. */
  lemma {:induction false} NoChangesIff(last: string, snapshots: seq<string>)
    ensures Changes(last, snapshots) == [] <==> forall i :: 0 <= i < |snapshots| ==> snapshots[i] == last
    decreases |snapshots|
  {
    if snapshots != [] {
      NoChangesIff(snapshots[0], snapshots[1..]);
      if Changes(last, snapshots) == [] {
        assert snapshots[0] == last;
        forall i | 0 <= i < |snapshots| ensures snapshots[i] == last {
          if i > 0 { assert snapshots[1..][i - 1] == snapshots[i]; }
        }
      }
    }
  }

  /** Snapshots "", "a=1", "a=1", "a=1; b=2" read from an initial "" give two
      notifications. */
  lemma PollingScenario()
    ensures Changes("", ["", "a=1", "a=1", "a=1; b=2"]) == [("", "a=1"), ("a=1", "a=1; b=2")]
  {
    var s := ["", "a=1", "a=1", "a=1; b=2"];
    assert s[1..] == ["a=1", "a=1", "a=1; b=2"];
    assert s[1..][1..] == ["a=1", "a=1; b=2"];
    assert s[1..][1..][1..] == ["a=1; b=2"];
    assert "a=1; b=2" != "a=1";
  }

  /** The same snapshots read by a monitor started on "": it sends two
      `documentCookieChanged` messages. */
  method PollingScenarioSends(url: string) returns (messages: seq<CookieChange>)
    ensures messages == [CookieChange("", "a=1", url), CookieChange("a=1", "a=1; b=2", url)]
  {
    var monitor := new CookieMonitor("");
    monitor.Poll(["", "a=1", "a=1", "a=1; b=2"], url);
    PollingScenario();
    messages := monitor.sent;
  }

  /** The listener for page messages forwards an event only if it comes from
      the window itself and its `type` is a string containing "COOKIE". */
  predicate ShouldForward(sourceIsWindow: bool, messageType: Option<string>)
  {
    sourceIsWindow && messageType.Some? && messageType.value != "" && Contains(messageType.value, "COOKIE")
  }

  /** The filter in terms of positions: an event is forwarded exactly when it
      comes from the window and "COOKIE" occurs somewhere in its type. */
  lemma ForwardIff(sourceIsWindow: bool, messageType: Option<string>)
    ensures ShouldForward(sourceIsWindow, messageType) <==>
      sourceIsWindow && messageType.Some? && exists i :: OccursAt(messageType.value, "COOKIE", i)
  {
    if messageType.Some? {
      ContainsIff(messageType.value, "COOKIE");
    }
  }

  /** Any message type with "COOKIE" inside it is forwarded, and only when
      the message comes from the window itself. */
  lemma CookieKindForwarded(sourceIsWindow: bool, p: string, q: string)
    ensures ShouldForward(sourceIsWindow, Some(p + "COOKIE" + q)) <==> sourceIsWindow
  {
    var s := "COOKIE" + q;
    assert s[..6] == "COOKIE";
    ContainsAppend(p, s, "COOKIE");
    assert p + s == p + "COOKIE" + q;
  }

  /** The three event kinds the injected hooks post are forwarded, and only
      from the window itself; an event without a type never is. */
  lemma ForwardedKinds(sourceIsWindow: bool)
    ensures ShouldForward(sourceIsWindow, Some("COOKIE_SET")) <==> sourceIsWindow
    ensures ShouldForward(sourceIsWindow, Some("FETCH_COOKIE_SET")) <==> sourceIsWindow
    ensures ShouldForward(sourceIsWindow, Some("XHR_COOKIE_SET")) <==> sourceIsWindow
    ensures !ShouldForward(sourceIsWindow, None)
  {
    CookieKindForwarded(sourceIsWindow, "", "_SET");
    assert "" + "COOKIE" + "_SET" == "COOKIE_SET";
    CookieKindForwarded(sourceIsWindow, "FETCH_", "_SET");
    assert "FETCH_" + "COOKIE" + "_SET" == "FETCH_COOKIE_SET";
    CookieKindForwarded(sourceIsWindow, "XHR_", "_SET");
    assert "XHR_" + "COOKIE" + "_SET" == "XHR_COOKIE_SET";
  }

  /** A string that contains `t` as a prefix of some suffix contains `t`. */
  lemma {:induction false} ContainsAppend(p: string, s: string, t: string)
    requires StartsWith(s, t)
    ensures Contains(p + s, t)
    decreases |p|
  {
    if p == [] {
      assert p + s == s;
    } else {
      ContainsAppend(p[1..], s, t);
      assert (p + s)[1..] == p[1..] + s;
    }
  }
}
