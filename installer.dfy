/** postscript.js: fetch the latest release description, find the `minima.jar`
    asset and the SHA-256 digest its release notes give, skip the download
    when the jar on disk already has that digest, else download (following
    redirects) and verify; fall back to a fixed default jar when the release
    cannot be used. Network replies, JSON texts and file digests are inputs. */
module Installer {
  import opened Wrappers
  import opened Text
  import opened Js

  const DefaultJarUrl := "https://" + "github.com" + "/minima-global/Minima/releases/download/v1.0.0/minima.jar"
  const JarName := "minima.jar"

  // ------------------------------------------------- digest in the release notes

  /** The class `[-\w\.]` of the pattern. */
  predicate IsNameChar(c: char) {
    c == '-' || IsWordChar(c) || c == '.'
  }

  /** The end of the longest run of name characters starting at `i`. */
  function NameRunEnd(body: string, i: nat): (j: nat)
    requires i <= |body|
    ensures i <= j <= |body|
    ensures forall k :: i <= k < j ==> IsNameChar(body[k])
    ensures j == |body| || !IsNameChar(body[j])
    decreases |body| - i
  {
    if i < |body| && IsNameChar(body[i]) then NameRunEnd(body, i + 1) else i
  }

  /** 64 hexadecimal digits start at `i`. */
  predicate HexRun(body: string, i: nat) {
    i + 64 <= |body| && forall k :: i <= k < i + 64 ==> IsHexDigit(body[k])
  }

  predicate IsDigest(h: string) {
    |h| == 64 && forall k :: 0 <= k < 64 ==> IsLowerHexDigit(h[k])
  }

  lemma LowerHexRun(body: string, i: nat)
    requires HexRun(body, i)
    ensures IsDigest(Lower(body[i..i + 64]))
  {
    var h := Lower(body[i..i + 64]);
    forall k | 0 <= k < 64 ensures IsLowerHexDigit(h[k]) {
      assert body[i..i + 64][k] == body[i + k];
    }
  }

  /** The part ``minima[-\w\.]*\.jar: `` of the pattern tried at `p`: the
      position after it. Since `:` is not a name character, `.jar` must end the
      longest run of name characters after `minima`. */
  function HeaderEnd(body: string, p: nat): (r: Option<nat>)
    requires p <= |body|
    ensures r.Some? ==> p + 12 <= r.value <= |body| && OccursAt(body, "minima", p)
    ensures r.Some? ==> body[r.value - 6..r.value] == ".jar: "
    ensures r.Some? ==> forall k :: p + 6 <= k < r.value - 2 ==> IsNameChar(body[k])
  {
    if !(p + 6 <= |body| && body[p..p + 6] == "minima") then None
    else
      var q := NameRunEnd(body, p + 6);
      if p + 10 <= q && q + 2 <= |body| && body[q - 4..q + 2] == ".jar: " then Some(q + 2)
      else None
  }

  /** The optional quote ``[`']?``: taken whenever it is there, since leaving it
      untaken can never let the digits match. */
  function QuoteLen(s: string): (n: nat)
    ensures n <= |s|
  {
    if |s| > 0 && (s[0] == '`' || s[0] == '\'') then 1 else 0
  }

  /** ``(0x)?([A-Fa-f0-9]{64})`` at the start of `s`, the digit group lower-cased.
      With `0x` present the digits must follow it: the untaken alternative
      fails on the `x`. */
  function Digits(s: string): (r: Option<string>)
    ensures r.Some? ==> IsDigest(r.value)
    ensures r.None? <==> !HexRun(s, 0) && !(|s| >= 2 && s[..2] == "0x" && HexRun(s, 2))
    ensures r.Some? && |s| >= 2 && s[..2] == "0x" && HexRun(s, 2) ==> r.value == Lower(s[2..66])
    ensures r.Some? && !(|s| >= 2 && s[..2] == "0x" && HexRun(s, 2)) ==> r.value == Lower(s[..64])
  {
    if |s| >= 2 && s[..2] == "0x" && HexRun(s, 2) then
      LowerHexRun(s, 2);
      Some(Lower(s[2..66]))
    else if HexRun(s, 0) then
      LowerHexRun(s, 0);
      Some(Lower(s[..64]))
    else None
  }

  /** The whole pattern tried at `p` (the closing ``[`']?`` always matches). */
  function MatchAt(body: string, p: nat): (r: Option<string>)
    requires p <= |body|
    ensures r.Some? ==> IsDigest(r.value) && OccursAt(body, "minima", p) && HeaderEnd(body, p).Some?
  {
    match HeaderEnd(body, p)
    case None => None
    case Some(h) =>
      var s := body[h..];
      Digits(s[QuoteLen(s)..])
  }

  /** The positions from `p` up to `i` where the pattern does not match. */
  predicate NoMatchBetween(body: string, p: nat, i: nat)
    requires p <= i <= |body| + 1
  {
    forall k :: p <= k < i && k <= |body| ==> MatchAt(body, k).None?
  }

  /** The first match at or after `p`, trying each position in turn. */
  function FirstMatch(body: string, p: nat): (r: Option<string>)
    requires p <= |body|
    ensures r.Some? ==> IsDigest(r.value) && exists i :: p <= i <= |body| && OccursAt(body, "minima", i)
    decreases |body| - p
  {
    match MatchAt(body, p)
    case Some(h) => Some(h)
    case None => if p == |body| then None else FirstMatch(body, p + 1)
  }

  /** The search finds nothing exactly when no position from `p` on matches. */
  lemma {:induction false} FirstMatchNone(body: string, p: nat)
    requires p <= |body|
    ensures FirstMatch(body, p).None? <==> NoMatchBetween(body, p, |body| + 1)
    decreases |body| - p
  {
    if MatchAt(body, p).Some? {
      assert !NoMatchBetween(body, p, |body| + 1);
    } else if p == |body| {
      assert NoMatchBetween(body, p, |body| + 1);
    } else {
      FirstMatchNone(body, p + 1);
      assert NoMatchBetween(body, p, |body| + 1) == NoMatchBetween(body, p + 1, |body| + 1);
    }
  }

  /** A match at `i` with none before it, from `p` on, is what the search finds. */
  lemma {:induction false} FirstMatchAt(body: string, p: nat, i: nat)
    requires p <= i <= |body| && MatchAt(body, i).Some? && NoMatchBetween(body, p, i)
    ensures FirstMatch(body, p) == MatchAt(body, i)
    decreases i - p
  {
    if p < i {
      assert MatchAt(body, p).None?;
      assert NoMatchBetween(body, p + 1, i);
      FirstMatchAt(body, p + 1, i);
    }
  }

  /** The search is leftmost: some match exists exactly when the result is
      present, and the result is the match at the least such position. */
  lemma FirstMatchLeftmost(body: string, p: nat)
    requires p <= |body|
    ensures FirstMatch(body, p).None? <==> NoMatchBetween(body, p, |body| + 1)
    ensures forall i :: p <= i <= |body| && MatchAt(body, i).Some? && NoMatchBetween(body, p, i) ==>
      FirstMatch(body, p) == MatchAt(body, i)
  {
    FirstMatchNone(body, p);
    forall i | p <= i <= |body| && MatchAt(body, i).Some? && NoMatchBetween(body, p, i)
      ensures FirstMatch(body, p) == MatchAt(body, i)
    {
      FirstMatchAt(body, p, i);
    }
  }

  /** `getHashFromReleaseBody`: the digest of the first match, lower-cased, or
      null. `jarName` is not used. */
  function GetHashFromReleaseBody(body: string, jarName: string): (r: Option<string>)
    ensures r.Some? ==> IsDigest(r.value) && Contains(body, "minima")
    ensures r.None? <==> NoMatchBetween(body, 0, |body| + 1)
    ensures forall i :: 0 <= i <= |body| && MatchAt(body, i).Some? && NoMatchBetween(body, 0, i) ==>
      r == MatchAt(body, i)
  {
    var r := FirstMatch(body, 0);
    ContainsAt(body, "minima");
    FirstMatchLeftmost(body, 0);
    r
  }

  /** A release-notes line as it announces the digest. */
  function HashLine(name: string, quote: string, prefix: string, digits: string): string {
    "minima" + name + ".jar: " + quote + prefix + digits
  }

  lemma HeaderOfLine(name: string, tail: string)
    requires forall k :: 0 <= k < |name| ==> IsNameChar(name[k])
    ensures HeaderEnd("minima" + name + ".jar: " + tail, 0) == Some(|name| + 12)
  {
    var body := "minima" + name + ".jar: " + tail;
    var q := 6 + |name| + 4;
    assert body[..6] == "minima";
    forall k | 6 <= k < q ensures IsNameChar(body[k]) {
      if k < 6 + |name| {
        assert body[k] == name[k - 6];
      } else {
        assert body[k] == ".jar"[k - 6 - |name|];
      }
    }
    assert body[q] == ':';
    assert body[q - 4..q + 2] == ".jar: ";
  }

  /** The 64 digits placed after a prefix form a hexadecimal run there. */
  lemma HexRunOfLine(prefix: string, digits: string, rest: string)
    requires |digits| == 64 && forall k :: 0 <= k < 64 ==> IsHexDigit(digits[k])
    ensures HexRun(prefix + digits + rest, |prefix|)
    ensures (prefix + digits + rest)[|prefix|..|prefix| + 64] == digits
  {
    var s := prefix + digits + rest;
    var n := |prefix|;
    assert s[n..n + 64] == digits;
    forall k | n <= k < n + 64 ensures IsHexDigit(s[k]) {
      assert s[k] == digits[k - n];
    }
  }

  /** Bare digits: the `0x` alternative fails on the second digit. */
  lemma DigitsOfBareLine(digits: string, rest: string)
    requires |digits| == 64 && forall k :: 0 <= k < 64 ==> IsHexDigit(digits[k])
    ensures Digits(digits + rest) == Some(Lower(digits))
  {
    var s := digits + rest;
    HexRunOfLine("", digits, rest);
    assert s[1] == digits[1];
    assert !(s[..2] == "0x");
    assert s[..64] == digits;
  }

  /** Digits after `0x`. */
  lemma DigitsOfPrefixedLine(digits: string, rest: string)
    requires |digits| == 64 && forall k :: 0 <= k < 64 ==> IsHexDigit(digits[k])
    ensures Digits("0x" + digits + rest) == Some(Lower(digits))
  {
    var s := "0x" + digits + rest;
    HexRunOfLine("0x", digits, rest);
    assert s[..2] == "0x";
  }

  lemma DigitsOfLine(prefix: string, digits: string, rest: string)
    requires prefix in {"", "0x"}
    requires |digits| == 64 && forall k :: 0 <= k < 64 ==> IsHexDigit(digits[k])
    ensures Digits(prefix + digits + rest) == Some(Lower(digits))
  {
    if prefix == "" {
      assert prefix + digits + rest == digits + rest;
      DigitsOfBareLine(digits, rest);
    } else {
      DigitsOfPrefixedLine(digits, rest);
    }
  }

  lemma QuoteOfLine(quote: string, more: string)
    requires quote in {"", "`", "'"}
    requires more != [] && IsHexDigit(more[0])
    ensures QuoteLen(quote + more) == |quote| && (quote + more)[|quote|..] == more
  {
    if quote == "" {
      assert (quote + more)[0] == more[0];
    }
  }

  /** The pattern matches a digest line at its start. */
  lemma MatchOfLine(name: string, quote: string, prefix: string, digits: string, rest: string)
    requires forall k :: 0 <= k < |name| ==> IsNameChar(name[k])
    requires quote in {"", "`", "'"} && prefix in {"", "0x"}
    requires |digits| == 64 && forall k :: 0 <= k < 64 ==> IsHexDigit(digits[k])
    ensures MatchAt(HashLine(name, quote, prefix, digits) + rest, 0) == Some(Lower(digits))
  {
    var more := prefix + digits + rest;
    var tail := quote + more;
    var body := "minima" + name + ".jar: " + tail;
    assert HashLine(name, quote, prefix, digits) + rest == body;
    HeaderOfLine(name, tail);
    assert body[|name| + 12..] == tail;
    assert more[0] == (if prefix == "" then digits[0] else '0');
    QuoteOfLine(quote, more);
    DigitsOfLine(prefix, digits, rest);
  }

  /** A body that begins with a digest line yields that digest, lower-cased,
      whatever jar name is asked for and whatever follows. */
  lemma HashLineRoundTrip(name: string, quote: string, prefix: string, digits: string, rest: string, jarName: string)
    requires forall k :: 0 <= k < |name| ==> IsNameChar(name[k])
    requires quote in {"", "`", "'"} && prefix in {"", "0x"}
    requires |digits| == 64 && forall k :: 0 <= k < 64 ==> IsHexDigit(digits[k])
    ensures GetHashFromReleaseBody(HashLine(name, quote, prefix, digits) + rest, jarName) == Some(Lower(digits))
  {
    MatchOfLine(name, quote, prefix, digits, rest);
    assert NoMatchBetween(HashLine(name, quote, prefix, digits) + rest, 0, 0);
  }

  /** The longest name run does not depend on the text before it. */
  lemma {:induction false} NameRunShift(x: string, y: string, i: nat)
    requires i <= |y|
    ensures NameRunEnd(x + y, |x| + i) == |x| + NameRunEnd(y, i)
    decreases |y| - i
  {
    if i < |y| {
      assert (x + y)[|x| + i] == y[i];
      if IsNameChar(y[i]) {
        NameRunShift(x, y, i + 1);
      }
    }
  }

  /** The header found at a position does not depend on the text before it. */
  lemma HeaderShift(x: string, y: string)
    ensures HeaderEnd(x + y, |x|).Some? <==> HeaderEnd(y, 0).Some?
    ensures HeaderEnd(y, 0).Some? ==> HeaderEnd(x + y, |x|) == Some(|x| + HeaderEnd(y, 0).value)
  {
    var body := x + y;
    var n := |x|;
    if |y| >= 6 {
      assert body[n..n + 6] == y[..6];
      NameRunShift(x, y, 6);
      var q := NameRunEnd(y, 6);
      if 10 <= q && q + 2 <= |y| {
        assert body[n + q - 4..n + q + 2] == y[q - 4..q + 2];
      }
    }
  }

  /** Whether the pattern matches at a position depends only on the text from there on. */
  lemma MatchShift(x: string, y: string)
    ensures MatchAt(x + y, |x|) == MatchAt(y, 0)
  {
    HeaderShift(x, y);
    if HeaderEnd(y, 0).Some? {
      var h := HeaderEnd(y, 0).value;
      var s := y[h..];
      assert (x + y)[|x| + h..] == s;
      assert MatchAt(y, 0) == Digits(s[QuoteLen(s)..]);
      assert MatchAt(x + y, |x|) == Digits(s[QuoteLen(s)..]);
    }
  }

  /** `minima` cannot start inside a text that never mentions it. */
  lemma NoMarkerWithin(text: string, line: string, k: nat)
    requires !Contains(text, "minima") && k + 6 <= |text|
    ensures (text + line)[k..k + 6] != "minima"
  {
    assert (text + line)[k..k + 6] == text[k..k + 6];
    ContainsAt(text, "minima");
    assert !OccursAt(text, "minima", k);
  }

  /** Nor can it run over a line break that ends the text. */
  lemma NoMarkerAcross(text: string, line: string, k: nat)
    requires text != [] && text[|text| - 1] == '\n'
    requires k < |text| < k + 6 <= |text| + |line|
    ensures (text + line)[k..k + 6] != "minima"
  {
    assert (text + line)[k..k + 6][|text| - 1 - k] == '\n';
  }

  /** `minima` cannot start inside such a text, even running over its end. */
  lemma NoMarkerInText(text: string, line: string, k: nat)
    requires !Contains(text, "minima") && (text == [] || text[|text| - 1] == '\n')
    requires k < |text|
    ensures !OccursAt(text + line, "minima", k)
  {
    if k + 6 <= |text| {
      NoMarkerWithin(text, line, k);
    } else if k + 6 <= |text| + |line| {
      NoMarkerAcross(text, line, k);
    }
  }

  /** Text that never mentions `minima` and ends a line holds no match, whatever follows it. */
  lemma NoMatchInText(text: string, line: string)
    requires !Contains(text, "minima") && (text == [] || text[|text| - 1] == '\n')
    ensures NoMatchBetween(text + line, 0, |text|)
  {
    forall k | 0 <= k < |text| ensures MatchAt(text + line, k).None? {
      NoMarkerInText(text, line, k);
    }
  }

  /** A match at the start of `line` is the one found after such a text. */
  lemma MatchAfterText(text: string, line: string, jarName: string)
    requires !Contains(text, "minima") && (text == [] || text[|text| - 1] == '\n')
    requires MatchAt(line, 0).Some?
    ensures GetHashFromReleaseBody(text + line, jarName) == MatchAt(line, 0)
  {
    MatchShift(text, line);
    NoMatchInText(text, line);
  }

  /** A digest line after any text that ends a line and never mentions
      `minima` is found: the pattern is not anchored to the start of the body. */
  lemma HashLineAfterText(text: string, name: string, quote: string, prefix: string, digits: string,
                          rest: string, jarName: string)
    requires !Contains(text, "minima") && (text == [] || text[|text| - 1] == '\n')
    requires forall k :: 0 <= k < |name| ==> IsNameChar(name[k])
    requires quote in {"", "`", "'"} && prefix in {"", "0x"}
    requires |digits| == 64 && forall k :: 0 <= k < 64 ==> IsHexDigit(digits[k])
    ensures GetHashFromReleaseBody(text + HashLine(name, quote, prefix, digits) + rest, jarName) == Some(Lower(digits))
  {
    var line := HashLine(name, quote, prefix, digits) + rest;
    assert text + HashLine(name, quote, prefix, digits) + rest == text + line;
    MatchOfLine(name, quote, prefix, digits, rest);
    MatchAfterText(text, line, jarName);
  }

  /** Without `minima` anywhere in the body there is no digest. */
  lemma NoMarkerNoDigest(body: string, jarName: string)
    requires !Contains(body, "minima")
    ensures GetHashFromReleaseBody(body, jarName) == None
  {
  }

  // ------------------------------------------------------------- downloads

  /** One HTTP reply, or a request that fails (`error` on the request). */
  datatype HttpReply = Reply(status: int, location: Option<string>) | RequestError

  /** `response.statusCode === 302 && response.headers.location`: an empty
      location does not redirect. */
  predicate Redirects(r: HttpReply) {
    r.Reply? && r.status == 302 && r.location.Some? && r.location.value != ""
  }

  /** Whether `https.get` accepts a string as an absolute `https:` URL rather
      than throwing: here, `https://` followed by a host. */
  predicate HttpsUrl(s: string) {
    |s| > 8 && s[..8] == "https://" && s[8] != '/'
  }

  /** A string `https.get` throws on at once. Other values are requested as given. */
  predicate Rejects(url: JsValue) {
    url.Str? && !HttpsUrl(url.s)
  }

  /** The `n`-th reply redirects to a location `https.get` throws on: the
      throw happens in the response callback, where nothing catches it. */
  predicate CrashesAfter(replies: seq<HttpReply>, n: nat) {
    1 <= n <= |replies| && Redirects(replies[n - 1]) && Rejects(Str(replies[n - 1].location.value))
  }

  /** A plain `http:` location is refused: the agent speaks only `https:`. */
  lemma PlainHttpRejected(rest: string)
    ensures Rejects(Str("http://" + rest))
  {
    var s := "http://" + rest;
    if |s| > 8 {
      assert s[..8][4] == s[4] == ':';
    }
  }

  /** A relative location is refused: it is not an absolute URL. */
  lemma RelativeRejected(path: string)
    ensures Rejects(Str("/" + path))
  {
    var s := "/" + path;
    if |s| > 8 {
      assert s[..8][0] == s[0] == '/';
    }
  }

  /** The file at `minima.jar`: the old jar, created empty by the
      write stream, written from a URL, or handed to an `fs.unlink` whose
      callback the immediate `process.exit(1)` does not wait for. */
  datatype JarFile = OldJar | EmptyJar | DownloadedFrom(url: JsValue) | UnlinkPending

  /** `Thrown`: `https.get` threw on the URL itself, before any request.
      `Crashed`: it threw on a redirect location, which ends the script. */
  datatype TransferEnd = Finished | Failed | Crashed | Thrown | Waiting

  /** The URLs requested in order, the file left behind, and how it ended
      (`Waiting`: no reply yet to the last request). */
  datatype Transfer = Transfer(requests: seq<JsValue>, file: JarFile, end: TransferEnd)

  /** `downloadFile`: open the destination, request `url`, follow a redirect by
      starting over at its location, write the body of a 200 reply, and on any
      other reply or a request error unlink the destination (the process then
      exits 1). */
  method DownloadFile(url: JsValue, replies: seq<HttpReply>) returns (t: Transfer)
    ensures t.end == Thrown <==> Rejects(url)
    ensures t.end == Thrown ==> t.requests == [] && t.file == EmptyJar
    ensures !Rejects(url) ==> 1 <= |t.requests| <= |replies| + 1 && t.requests[0] == url
    ensures forall i :: 0 <= i < |t.requests| - 1 ==>
      Redirects(replies[i]) && !Rejects(Str(replies[i].location.value)) && t.requests[i + 1] == Str(replies[i].location.value)
    ensures t.end == Waiting <==> |t.requests| == |replies| + 1
    ensures t.end == Waiting ==> t.file == EmptyJar
    ensures t.end == Crashed <==> !Rejects(url) && CrashesAfter(replies, |t.requests|)
    ensures t.end == Crashed ==> t.file == EmptyJar
    ensures t.end == Finished ==>
      replies[|t.requests| - 1].Reply? && replies[|t.requests| - 1].status == 200
      && t.file == DownloadedFrom(t.requests[|t.requests| - 1])
    ensures t.end == Failed ==>
      !Redirects(replies[|t.requests| - 1]) && !(replies[|t.requests| - 1].Reply? && replies[|t.requests| - 1].status == 200)
      && t.file == UnlinkPending
    decreases |replies|
  {
    if Rejects(url) {
      return Transfer([], EmptyJar, Thrown);
    }
    if replies == [] {
      return Transfer([url], EmptyJar, Waiting);
    }
    var reply := replies[0];
    if Redirects(reply) {
      var rest := DownloadFile(Str(reply.location.value), replies[1..]);
      if rest.end == Thrown {
        return Transfer([url], EmptyJar, Crashed);
      }
      return Transfer([url] + rest.requests, rest.file, rest.end);
    }
    if reply.Reply? && reply.status == 200 {
      return Transfer([url], DownloadedFrom(url), Finished);
    }
    return Transfer([url], UnlinkPending, Failed);
  }

  // ---------------------------------------------------------------- release

  /** The reply to the release query. */
  datatype ApiReply = Unreachable | Received(text: Parsed)

  /** `release.assets.find(a => a.name === 'minima.jar')`, which throws on an
      element whose `name` cannot be read. */
  datatype Search = Throws | NotFound | FoundAsset(asset: JsValue)

  /** The first `i` assets have readable names, none of them `minima.jar`. */
  predicate PassedOver(assets: seq<JsValue>, i: nat)
    requires i <= |assets|
  {
    forall k :: 0 <= k < i ==> Get(assets[k], "name").Some? && Get(assets[k], "name") != Some(Str(JarName))
  }

  /** `find`: the first asset named `minima.jar`, unless reading a name throws first. */
  function FindJarAsset(assets: seq<JsValue>): (r: Search)
    ensures r.FoundAsset? ==> r.asset in assets && Get(r.asset, "name") == Some(Str(JarName))
    decreases |assets|
  {
    if assets == [] then NotFound
    else match Get(assets[0], "name")
      case None => Throws
      case Some(n) => if n == Str(JarName) then FoundAsset(assets[0]) else FindJarAsset(assets[1..])
  }

  /** Passing over the first asset shifts the count by one. */
  lemma PassedOverTail(assets: seq<JsValue>, i: nat)
    requires assets != [] && i < |assets|
    requires Get(assets[0], "name").Some? && Get(assets[0], "name") != Some(Str(JarName))
    ensures PassedOver(assets, i + 1) <==> PassedOver(assets[1..], i)
  {
    var tail := assets[1..];
    if PassedOver(tail, i) {
      forall k | 0 < k < i + 1 ensures Get(assets[k], "name").Some? && Get(assets[k], "name") != Some(Str(JarName)) {
        assert assets[k] == tail[k - 1];
      }
    }
    if PassedOver(assets, i + 1) {
      forall k | 0 <= k < i ensures Get(tail[k], "name").Some? && Get(tail[k], "name") != Some(Str(JarName)) {
        assert tail[k] == assets[k + 1];
      }
    }
  }

  /** The search stops at the first asset whose name is `minima.jar` or cannot
      be read: it finds the former and throws on the latter. */
  lemma {:induction false} FindJarAssetFirst(assets: seq<JsValue>)
    ensures FindJarAsset(assets).FoundAsset? <==>
      exists i :: 0 <= i < |assets| && PassedOver(assets, i) && Get(assets[i], "name") == Some(Str(JarName))
    ensures forall i :: 0 <= i < |assets| && PassedOver(assets, i) && Get(assets[i], "name") == Some(Str(JarName)) ==>
      FindJarAsset(assets) == FoundAsset(assets[i])
    ensures FindJarAsset(assets).Throws? <==>
      exists i :: 0 <= i < |assets| && PassedOver(assets, i) && Get(assets[i], "name").None?
    ensures FindJarAsset(assets).NotFound? <==> PassedOver(assets, |assets|)
    decreases |assets|
  {
    if assets == [] {
    } else if Get(assets[0], "name").None? || Get(assets[0], "name") == Some(Str(JarName)) {
      assert PassedOver(assets, 0);
      forall i | 0 < i <= |assets| ensures !PassedOver(assets, i) {
        assert !(Get(assets[0], "name").Some? && Get(assets[0], "name") != Some(Str(JarName)));
      }
    } else {
      var tail := assets[1..];
      FindJarAssetFirst(tail);
      assert FindJarAsset(assets) == FindJarAsset(tail);
      forall i | 0 <= i < |tail| ensures PassedOver(assets, i + 1) <==> PassedOver(tail, i) {
        PassedOverTail(assets, i);
      }
      PassedOverTail(assets, |tail|);
      forall i | 0 <= i < |tail| ensures assets[i + 1] == tail[i] {
      }
      assert !PassedOver(assets, 0) || Get(assets[0], "name") != Some(Str(JarName));
      assert !PassedOver(assets, 0) || Get(assets[0], "name").Some?;
      if FindJarAsset(tail).FoundAsset? {
        var j :| 0 <= j < |tail| && PassedOver(tail, j) && Get(tail[j], "name") == Some(Str(JarName));
        assert PassedOver(assets, j + 1) && Get(assets[j + 1], "name") == Some(Str(JarName));
      }
      if FindJarAsset(tail).Throws? {
        var j :| 0 <= j < |tail| && PassedOver(tail, j) && Get(tail[j], "name").None?;
        assert PassedOver(assets, j + 1) && Get(assets[j + 1], "name").None?;
      }
    }
  }

  /** The release data is truthy and its `assets` is an array. */
  predicate HasAssetsArray(release: JsValue) {
    Truthy(release) && Get(release, "assets").Some? && Get(release, "assets").value.Arr?
  }

  /** What the `try` block makes of the release before touching the disk: the
      asset's download URL and the digest, or a fall back to the default jar. */
  datatype Release = Fallback | Asset(url: JsValue, hash: Option<string>)

  function ExamineRelease(api: ApiReply): (r: Release)
    ensures api.Unreachable? || api == Received(Malformed) ==> r == Fallback
    ensures api.Received? && api.text.Json? && !HasAssetsArray(api.text.v) ==> r == Fallback
    ensures r.Asset? ==>
      api.Received? && api.text.Json? && HasAssetsArray(api.text.v)
      && exists a :: a in Get(api.text.v, "assets").value.elems && Get(a, "name") == Some(Str(JarName))
    ensures r.Asset? && r.hash.Some? ==> IsDigest(r.hash.value)
    ensures api.Received? && api.text.Json? && HasAssetsArray(api.text.v) ==>
      var release := api.text.v;
      var found := FindJarAsset(Get(release, "assets").value.elems);
      var body := Get(release, "body").value;
      (r.Asset? <==> found.FoundAsset? && (body.Str? || !Truthy(body)))
      && (r.Asset? ==>
            r.url == Get(found.asset, "browser_download_url").value
            && r.hash == (if Truthy(body) then GetHashFromReleaseBody(body.s, JarName) else None))
  {
    match api
    case Unreachable => Fallback
    case Received(Malformed) => Fallback
    case Received(Json(release)) =>
      if !HasAssetsArray(release) then Fallback
      else match FindJarAsset(Get(release, "assets").value.elems)
        case Throws => Fallback
        case NotFound => Fallback
        case FoundAsset(a) =>
          var url := Get(a, "browser_download_url").value;
          var body := Get(release, "body").value;
          if !Truthy(body) then Asset(url, None)
          else if body.Str? then Asset(url, GetHashFromReleaseBody(body.s, JarName))
          else Fallback  // `body.match` is not a function
  }

  /** What the script finds: the release reply, whether `minima.jar` exists, the
      digest of the existing file and of the downloaded file (None when hashing
      fails), and the replies to the asset and default-jar requests. */
  datatype InstallEnv = InstallEnv(
    api: ApiReply, destExists: bool, existingHash: Option<string>,
    assetReplies: seq<HttpReply>, downloadedHash: Option<string>, defaultReplies: seq<HttpReply>)

  /** The exit code (None while still waiting for a reply), the jar left behind,
      the URLs requested for the jar, and whether the default jar was fetched. */
  datatype Install = Install(exitCode: Option<int>, file: JarFile, requests: seq<JsValue>, usedDefault: bool)

  /** The default URL is one `https.get` accepts. */
  lemma DefaultJarUrlAccepted()
    ensures HttpsUrl(DefaultJarUrl)
  {
    assert DefaultJarUrl[..8] == "https://";
    assert DefaultJarUrl[8] == "github.com"[0];
  }

  /** `downloadDefaultJar`: exit 0 once downloaded; a failed download exits 1
      from inside `downloadFile`. */
  method DownloadDefaultJar(replies: seq<HttpReply>) returns (o: Install)
    ensures o.usedDefault && o.requests != [] && o.requests[0] == Str(DefaultJarUrl)
    ensures o.exitCode == Some(0) <==> o.file.DownloadedFrom?
    ensures o.exitCode == Some(1) <==> o.file == UnlinkPending || CrashesAfter(replies, |o.requests|)
    ensures CrashesAfter(replies, |o.requests|) ==> o.file == EmptyJar
    ensures o.exitCode.None? <==> |o.requests| == |replies| + 1
    ensures o.exitCode.None? ==> o.file == EmptyJar
  {
    DefaultJarUrlAccepted();
    var t := DownloadFile(Str(DefaultJarUrl), replies);
    var code := match t.end
      case Finished => Some(0)
      case Failed => Some(1)
      case Crashed => Some(1)
      case Thrown => assert false; None
      case Waiting => None;
    o := Install(code, t.file, t.requests, true);
  }

  /** The existing file already has the release's digest. */
  predicate UpToDate(env: InstallEnv, rel: Release)
    requires rel.Asset?
  {
    env.destExists && rel.hash.Some? && env.existingHash == rel.hash
  }

  /** `downloadLatestMinima`. */
  method DownloadLatestMinima(env: InstallEnv) returns (o: Install)
    ensures var rel := ExamineRelease(env.api);
      o.usedDefault <==> rel.Fallback? || (!UpToDate(env, rel) && Rejects(rel.url))
    ensures o.usedDefault ==> o.requests != [] && o.requests[0] == Str(DefaultJarUrl)
    ensures o.usedDefault ==>
      (o.exitCode == Some(0) <==> o.file.DownloadedFrom?)
      && (o.exitCode == Some(1) <==> o.file == UnlinkPending || CrashesAfter(env.defaultReplies, |o.requests|))
    ensures var rel := ExamineRelease(env.api);
      rel.Asset? && UpToDate(env, rel) ==> o == Install(Some(0), OldJar, [], false)
    ensures var rel := ExamineRelease(env.api);
      rel.Asset? && !UpToDate(env, rel) && !Rejects(rel.url) ==> o.requests != [] && o.requests[0] == rel.url
    ensures !o.usedDefault && o.requests != [] && o.file == UnlinkPending ==> o.exitCode == Some(1)
    ensures !o.usedDefault && CrashesAfter(env.assetReplies, |o.requests|) ==>
      o.exitCode == Some(1) && o.file == EmptyJar
    ensures !o.usedDefault && o.exitCode.None? ==> |o.requests| == |env.assetReplies| + 1 && o.file == EmptyJar
    ensures var rel := ExamineRelease(env.api);
      !o.usedDefault && o.exitCode == Some(0) && o.requests != [] ==>
        o.file.DownloadedFrom? && (rel.hash.None? || env.downloadedHash == rel.hash)
    ensures var rel := ExamineRelease(env.api);
      !o.usedDefault && o.file.DownloadedFrom? && rel.hash.Some? && env.downloadedHash != rel.hash ==>
        o.exitCode == Some(1)
    ensures !o.usedDefault && o.file.DownloadedFrom? && ExamineRelease(env.api).hash.None? ==> o.exitCode == Some(0)
    ensures var rel := ExamineRelease(env.api);
      !o.usedDefault && o.file.DownloadedFrom? && rel.hash.Some? && env.downloadedHash == rel.hash ==>
        o.exitCode == Some(0)
  {
    var rel := ExamineRelease(env.api);
    if rel.Fallback? {
      o := DownloadDefaultJar(env.defaultReplies);
      return;
    }
    if UpToDate(env, rel) {
      return Install(Some(0), OldJar, [], false);
    }
    var t := DownloadFile(rel.url, env.assetReplies);
    match t.end {
      case Thrown =>
        // the promise rejects and the `catch` falls back
        o := DownloadDefaultJar(env.defaultReplies);
      case Waiting =>
        o := Install(None, t.file, t.requests, false);
      case Failed =>
        o := Install(Some(1), t.file, t.requests, false);
      case Crashed =>
        o := Install(Some(1), t.file, t.requests, false);
      case Finished =>
        if rel.hash.Some? && env.downloadedHash != rel.hash {
          o := Install(Some(1), t.file, t.requests, false);
        } else {
          o := Install(Some(0), t.file, t.requests, false);
        }
    }
  }
}
