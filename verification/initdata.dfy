/** `TelegramInitDataVerifier`: checks the `initData` query string a Telegram Mini App
    hands to the backend and extracts the user from it. HMAC-SHA-256, percent-decoding
    (`Uri.UnescapeDataString`) and JSON deserialisation are parameters; the UTF-8
    encoding of keys and messages, the hex text of a digest, the parsing of the query
    string and the data-check string are modelled. */
module InitData {
  import opened Text
  import Order

  newtype byte = x: int | 0 <= x < 256

  // ---------------------------------------------------------------------------
  // UTF-8

  predicate IsContinuation(b: byte) { 0x80 <= b < 0xC0 }

  /** `Encoding.UTF8` of one Unicode scalar value: one to four bytes. */
  function Utf8Char(c: char): (bs: seq<byte>)
    ensures 1 <= |bs| <= 4
    ensures |bs| == 1 <==> c as int < 0x80
    ensures |bs| == 1 ==> bs[0] as int == c as int
    ensures forall i :: 1 <= i < |bs| ==> IsContinuation(bs[i])
  {
    var n := c as int;
    if n < 0x80 then [n as byte]
    else if n < 0x800 then [(0xC0 + n / 0x40) as byte, (0x80 + n % 0x40) as byte]
    else if n < 0x10000 then
      [(0xE0 + n / 0x1000) as byte, (0x80 + n / 0x40 % 0x40) as byte, (0x80 + n % 0x40) as byte]
    else
      [(0xF0 + n / 0x40000) as byte, (0x80 + n / 0x1000 % 0x40) as byte,
       (0x80 + n / 0x40 % 0x40) as byte, (0x80 + n % 0x40) as byte]
  }

  /** The scalar value a one- to four-byte UTF-8 sequence encodes. */
  function DecodeChar(bs: seq<byte>): int
    requires 1 <= |bs| <= 4
  {
    if |bs| == 1 then bs[0] as int
    else if |bs| == 2 then (bs[0] as int - 0xC0) * 0x40 + (bs[1] as int - 0x80)
    else if |bs| == 3 then
      (bs[0] as int - 0xE0) * 0x1000 + (bs[1] as int - 0x80) * 0x40 + (bs[2] as int - 0x80)
    else
      (bs[0] as int - 0xF0) * 0x40000 + (bs[1] as int - 0x80) * 0x1000
      + (bs[2] as int - 0x80) * 0x40 + (bs[3] as int - 0x80)
  }

  /** Each character's encoding decodes back to that character. */
  lemma Utf8CharRoundTrip(c: char)
    ensures DecodeChar(Utf8Char(c)) == c as int
  {
    var n := c as int;
    if 0x800 <= n < 0x10000 {
      ThreeByteRoundTrip(c);
    } else if n >= 0x10000 {
      FourByteRoundTrip(c);
    }
  }

  lemma ThreeByteRoundTrip(c: char)
    requires 0x800 <= c as int < 0x10000
    ensures DecodeChar(Utf8Char(c)) == c as int
  {
    var n := c as int;
    assert n == n / 0x1000 * 0x1000 + n / 0x40 % 0x40 * 0x40 + n % 0x40;
  }

  lemma FourByteRoundTrip(c: char)
    requires 0x10000 <= c as int
    ensures DecodeChar(Utf8Char(c)) == c as int
  {
    var n := c as int;
    var hi := n / 0x1000;
    assert n == hi * 0x1000 + n / 0x40 % 0x40 * 0x40 + n % 0x40;
    assert hi == n / 0x40000 * 0x40 + n / 0x1000 % 0x40;
  }

  /** Every character of `s` is ASCII. */
  predicate IsAscii(s: string) {
    forall i :: 0 <= i < |s| ==> s[i] as int < 0x80
  }

  /** `Encoding.UTF8.GetBytes(s)`. An ASCII string encodes to one byte per character,
      the character's code. */
  function Utf8(s: string): (bs: seq<byte>)
    ensures |bs| >= |s|
    ensures IsAscii(s) ==> |bs| == |s| && forall i :: 0 <= i < |s| ==> bs[i] as int == s[i] as int
    decreases |s|
  {
    if |s| == 0 then [] else Utf8Char(s[0]) + Utf8(s[1..])
  }

  // ---------------------------------------------------------------------------
  // Hex text of a digest

  predicate IsLowerHexDigit(c: char) { '0' <= c <= '9' || 'a' <= c <= 'f' }

  /** The hex digit for a nibble, in the case `BitConverter` writes (upper). */
  function UpperDigit(d: int): (c: char)
    requires 0 <= d < 16
  {
    if d < 10 then ('0' as int + d) as char else ('A' as int + d - 10) as char
  }

  /** The hex digit for a nibble, lower case. */
  function LowerDigit(d: int): (c: char)
    requires 0 <= d < 16
    ensures IsLowerHexDigit(c)
  {
    if d < 10 then ('0' as int + d) as char else ('a' as int + d - 10) as char
  }

  /** A byte as `BitConverter.ToString` writes it: two upper-case hex digits. */
  function UpperPair(b: byte): string {
    [UpperDigit(b as int / 16), UpperDigit(b as int % 16)]
  }

  /** A byte as two lower-case hex digits, high nibble first. */
  function LowerPair(b: byte): string {
    [LowerDigit(b as int / 16), LowerDigit(b as int % 16)]
  }

  /** `BitConverter.ToString(bytes)`: the upper-case pairs, separated by `-`. */
  function BitConverterText(bs: seq<byte>): string
    decreases |bs|
  {
    if |bs| == 0 then ""
    else if |bs| == 1 then UpperPair(bs[0])
    else UpperPair(bs[0]) + "-" + BitConverterText(bs[1..])
  }

  /** The digest text `ComputeHmacSha256` returns: `BitConverter.ToString`, with the
      dashes removed, lower-cased. */
  function HexText(bs: seq<byte>): string {
    ToLower(RemoveChar(BitConverterText(bs), '-'))
  }

  /** The plain lower-case hex text of a byte sequence, two digits per byte. */
  function LowerHex(bs: seq<byte>): (t: string)
    ensures |t| == 2 * |bs|
    ensures forall i :: 0 <= i < |t| ==> IsLowerHexDigit(t[i])
    decreases |bs|
  {
    if |bs| == 0 then "" else LowerPair(bs[0]) + LowerHex(bs[1..])
  }

  lemma LowerUpperPair(b: byte)
    ensures ToLower(UpperPair(b)) == LowerPair(b)
    ensures '-' !in UpperPair(b)
  {
  }

  /** Removing the dashes and lower-casing `BitConverter`'s text leaves exactly two
      lower-case hex digits per byte, with no separators. */
  lemma {:induction false} HexTextIsLowerHex(bs: seq<byte>)
    ensures HexText(bs) == LowerHex(bs)
    decreases |bs|
  {
    if |bs| == 1 {
      LowerUpperPair(bs[0]);
      RemoveCharAbsent(UpperPair(bs[0]), '-');
      assert LowerHex(bs) == LowerPair(bs[0]) + "";
    } else if |bs| > 1 {
      var p := UpperPair(bs[0]);
      var rest := BitConverterText(bs[1..]);
      LowerUpperPair(bs[0]);
      HexTextIsLowerHex(bs[1..]);
      RemoveCharAppend(p + "-", rest, '-');
      RemoveCharAppend(p, "-", '-');
      RemoveCharAbsent(p, '-');
      assert RemoveChar("-", '-') == "";
      assert RemoveChar(p + "-" + rest, '-') == p + RemoveChar(rest, '-');
      ToLowerAppend(p, RemoveChar(rest, '-'));
    }
  }

  function DigitOf(c: char): (d: int)
    requires IsLowerHexDigit(c)
    ensures 0 <= d < 16 && LowerDigit(d) == c
  {
    if '0' <= c <= '9' then c as int - '0' as int else c as int - 'a' as int + 10
  }

  /** Reads lower-case hex text back into bytes: `None` for an odd length or a character
      that is not a lower-case hex digit. */
  function ParseHex(t: string): Option<seq<byte>>
    decreases |t|
  {
    if |t| == 0 then Some([])
    else if |t| == 1 || !IsLowerHexDigit(t[0]) || !IsLowerHexDigit(t[1]) then None
    else
      match ParseHex(t[2..])
      case None => None
      case Some(rest) => Some([(DigitOf(t[0]) * 16 + DigitOf(t[1])) as byte] + rest)
  }

  /** The hex text of a digest reads back to the digest. */
  lemma {:induction false} LowerHexRoundTrip(bs: seq<byte>)
    ensures ParseHex(LowerHex(bs)) == Some(bs)
    decreases |bs|
  {
    if |bs| > 0 {
      var t := LowerHex(bs);
      assert t == LowerPair(bs[0]) + LowerHex(bs[1..]);
      assert t[2..] == LowerHex(bs[1..]);
      LowerHexRoundTrip(bs[1..]);
      PairRoundTrip(bs[0]);
      assert t[0] == LowerPair(bs[0])[0] && t[1] == LowerPair(bs[0])[1];
      assert [bs[0]] + bs[1..] == bs;
    }
  }

  /** The two digits of a byte read back to the byte. */
  lemma PairRoundTrip(b: byte)
    ensures var t := LowerPair(b);
      IsLowerHexDigit(t[0]) && IsLowerHexDigit(t[1]) && (DigitOf(t[0]) * 16 + DigitOf(t[1])) as byte == b
  {
    var t := LowerPair(b);
    assert DigitOf(t[0]) == b as int / 16 && DigitOf(t[1]) == b as int % 16;
  }

  /** `ComputeHmacSha256(data, key)`: the hex text of the HMAC of the UTF-8 bytes of
      `data` under the UTF-8 bytes of `key`. The text has two lower-case hex digits per
      digest byte and reads back to the digest. */
  function ComputeHmac(data: string, key: string, hmac: (seq<byte>, seq<byte>) -> seq<byte>): (h: string)
    ensures |h| == 2 * |hmac(Utf8(key), Utf8(data))|
    ensures forall i :: 0 <= i < |h| ==> IsLowerHexDigit(h[i])
    ensures ParseHex(h) == Some(hmac(Utf8(key), Utf8(data)))
  {
    var digest := hmac(Utf8(key), Utf8(data));
    HexTextIsLowerHex(digest);
    LowerHexRoundTrip(digest);
    HexText(digest)
  }

  // ---------------------------------------------------------------------------
  // The query string

  /** The result of parsing: the parameters other than `hash`, and the hash (empty
      when none was given). */
  datatype Parsed = Parsed(params: map<string, string>, hash: string)

  /** The decoded `(key, value)` of one `&`-separated pair: it splits at the first `=`
      only; a pair without `=` contributes nothing. */
  function Entry(pair: string, unescape: string -> string): (e: Option<(string, string)>)
    ensures e.None? <==> '=' !in pair
  {
    match SplitFirst(pair, '=')
    case None => None
    case Some((k, v)) => Some((unescape(k), unescape(v)))
  }

  /** A pair splits at its first `=` only: the key holds no `=`, the value may. */
  lemma EntrySplitsAtFirstEquals(pair: string, unescape: string -> string)
    requires '=' in pair
    ensures exists k, v :: '=' !in k && pair == k + "=" + v && Entry(pair, unescape) == Some((unescape(k), unescape(v)))
  {
    var k := SplitFirst(pair, '=').value.0;
    var v := SplitFirst(pair, '=').value.1;
    assert pair == k + "=" + v;
    assert Entry(pair, unescape) == Some((unescape(k), unescape(v)));
  }

  /** One loop iteration: `hash` goes to the hash, any other key to the parameters,
      overwriting an earlier value. */
  function Absorb(p: Parsed, e: Option<(string, string)>): Parsed {
    match e
    case None => p
    case Some((k, v)) => if k == "hash" then p.(hash := v) else p.(params := p.params[k := v])
  }

  /** The decoded entries of the pairs, one per pair. */
  function Entries(pairs: seq<string>, unescape: string -> string): (es: seq<Option<(string, string)>>)
    ensures |es| == |pairs|
    ensures forall i :: 0 <= i < |pairs| ==> es[i] == Entry(pairs[i], unescape)
  {
    seq(|pairs|, i requires 0 <= i < |pairs| => Entry(pairs[i], unescape))
  }

  /** The loop over the decoded entries, in order. */
  function ParseEntries(es: seq<Option<(string, string)>>): (r: Parsed)
    ensures "hash" !in r.params
    decreases |es|
  {
    if |es| == 0 then Parsed(map[], "")
    else Absorb(ParseEntries(es[..|es| - 1]), es[|es| - 1])
  }

  /** The loop over the pairs, in order. */
  function ParsePairs(pairs: seq<string>, unescape: string -> string): (r: Parsed)
    ensures "hash" !in r.params
  {
    ParseEntries(Entries(pairs, unescape))
  }

  /** Entry `e` sets key `k`. */
  predicate SetsKey(e: Option<(string, string)>, k: string) {
    e.Some? && e.value.0 == k
  }

  /** Pair `pair` sets key `k`. */
  predicate Sets(pair: string, unescape: string -> string, k: string) {
    SetsKey(Entry(pair, unescape), k)
  }

  /** Entry `i` is the last of `es` that sets `k`. */
  ghost predicate IsLastEntry(es: seq<Option<(string, string)>>, k: string, i: int) {
    0 <= i < |es| && SetsKey(es[i], k)
    && forall j :: i < j < |es| ==> !SetsKey(es[j], k)
  }

  /** Pair `i` is the last of `pairs` that sets `k`. */
  ghost predicate IsLast(pairs: seq<string>, unescape: string -> string, k: string, i: int) {
    0 <= i < |pairs| && Sets(pairs[i], unescape, k)
    && forall j :: i < j < |pairs| ==> !Sets(pairs[j], unescape, k)
  }

  /** One entry more only changes what that entry sets. */
  lemma AbsorbOther(q: Parsed, e: Option<(string, string)>, k: string)
    requires !SetsKey(e, k)
    ensures var p := Absorb(q, e);
      && (k in p.params <==> k in q.params)
      && (k in q.params ==> p.params[k] == q.params[k])
      && (k == "hash" ==> p.hash == q.hash)
  {
  }

  lemma InitAgrees<T>(xs: seq<T>, n: int)
    requires 0 <= n <= |xs|
    ensures forall i :: 0 <= i < n ==> xs[..n][i] == xs[i]
  {
  }

  /** The two halves of last-wins for a key other than `hash`, on entries. */
  ghost predicate LastWins(es: seq<Option<(string, string)>>, k: string) {
    var p := ParseEntries(es);
    && (forall i :: 0 <= i < |es| && SetsKey(es[i], k) ==> k in p.params)
    && (k in p.params ==> exists i :: IsLastEntry(es, k, i) && p.params[k] == es[i].value.1)
  }

  /** Last-wins on entries, by induction over the loop. */
  lemma {:induction false} EntriesLastWins(es: seq<Option<(string, string)>>, k: string)
    requires k != "hash"
    ensures LastWins(es, k)
    decreases |es|
  {
    if |es| > 0 {
      EntriesLastWins(es[..|es| - 1], k);
      if SetsKey(es[|es| - 1], k) {
        LastEntrySets(es, k);
      } else {
        LastEntryOther(es, k);
      }
    }
  }

  /** When the last entry sets `k`, it wins. */
  lemma LastEntrySets(es: seq<Option<(string, string)>>, k: string)
    requires k != "hash" && |es| > 0 && SetsKey(es[|es| - 1], k)
    ensures LastWins(es, k)
  {
    var n := |es| - 1;
    var p := ParseEntries(es);
    assert p == Absorb(ParseEntries(es[..n]), es[n]);
    assert k in p.params && p.params[k] == es[n].value.1;
    assert IsLastEntry(es, k, n);
  }

  /** When the last entry does not set `k`, the earlier entries decide. */
  lemma LastEntryOther(es: seq<Option<(string, string)>>, k: string)
    requires k != "hash" && |es| > 0 && !SetsKey(es[|es| - 1], k)
    requires LastWins(es[..|es| - 1], k)
    ensures LastWins(es, k)
  {
    var n := |es| - 1;
    var init := es[..n];
    InitAgrees(es, n);
    var q := ParseEntries(init);
    var p := ParseEntries(es);
    assert p == Absorb(q, es[n]);
    AbsorbOther(q, es[n], k);
    forall i | 0 <= i < |es| && SetsKey(es[i], k) ensures k in p.params {
      assert SetsKey(init[i], k);
    }
    if k in p.params {
      var i :| IsLastEntry(init, k, i) && q.params[k] == init[i].value.1;
      assert IsLastEntry(es, k, i);
    }
  }

  /** Repeated keys are last-wins: a parameter other than `hash` is present when some
      pair sets it, and then holds the value of the last pair that does. */
  lemma ParamsLastWins(pairs: seq<string>, unescape: string -> string, k: string)
    requires k != "hash"
    ensures var p := ParsePairs(pairs, unescape);
      && (forall i :: 0 <= i < |pairs| && Sets(pairs[i], unescape, k) ==> k in p.params)
      && (k in p.params ==> exists i :: IsLast(pairs, unescape, k, i) && p.params[k] == Entry(pairs[i], unescape).value.1)
  {
    var es := Entries(pairs, unescape);
    EntriesLastWins(es, k);
    var p := ParsePairs(pairs, unescape);
    if k in p.params {
      var i :| IsLastEntry(es, k, i) && p.params[k] == es[i].value.1;
      assert IsLast(pairs, unescape, k, i);
    }
  }

  /** The two halves of last-wins for `hash`, on entries. */
  ghost predicate HashWins(es: seq<Option<(string, string)>>) {
    var p := ParseEntries(es);
    && ((forall i :: 0 <= i < |es| ==> !SetsKey(es[i], "hash")) ==> p.hash == "")
    && (forall i :: IsLastEntry(es, "hash", i) ==> p.hash == es[i].value.1)
  }

  /** Last-wins for `hash` on entries, by induction over the loop. */
  lemma {:induction false} EntriesHashWins(es: seq<Option<(string, string)>>)
    ensures HashWins(es)
    decreases |es|
  {
    if |es| > 0 {
      EntriesHashWins(es[..|es| - 1]);
      if !SetsKey(es[|es| - 1], "hash") {
        HashEntryOther(es);
      } else {
        HashEntrySets(es);
      }
    }
  }

  /** When the last entry sets `hash`, it wins. */
  lemma HashEntrySets(es: seq<Option<(string, string)>>)
    requires |es| > 0 && SetsKey(es[|es| - 1], "hash")
    ensures HashWins(es)
  {
    var n := |es| - 1;
    assert ParseEntries(es) == Absorb(ParseEntries(es[..n]), es[n]);
    assert ParseEntries(es).hash == es[n].value.1;
    forall i | IsLastEntry(es, "hash", i) ensures i == n {}
  }

  /** When the last entry does not set `hash`, the earlier entries decide it. */
  lemma HashEntryOther(es: seq<Option<(string, string)>>)
    requires |es| > 0 && !SetsKey(es[|es| - 1], "hash")
    requires HashWins(es[..|es| - 1])
    ensures HashWins(es)
  {
    var n := |es| - 1;
    var init := es[..n];
    InitAgrees(es, n);
    var q := ParseEntries(init);
    var p := ParseEntries(es);
    assert p == Absorb(q, es[n]);
    AbsorbOther(q, es[n], "hash");
    forall i | IsLastEntry(es, "hash", i) ensures p.hash == es[i].value.1 {
      assert IsLastEntry(init, "hash", i);
    }
    if forall i :: 0 <= i < |es| ==> !SetsKey(es[i], "hash") {
      forall i | 0 <= i < n ensures !SetsKey(init[i], "hash") {
        assert !SetsKey(es[i], "hash");
      }
    }
  }

  /** The hash is empty when no pair sets `hash`, and otherwise the value of the last
      pair that does. */
  lemma HashLastWins(pairs: seq<string>, unescape: string -> string)
    ensures var p := ParsePairs(pairs, unescape);
      && ((forall i :: 0 <= i < |pairs| ==> !Sets(pairs[i], unescape, "hash")) ==> p.hash == "")
      && (forall i :: IsLast(pairs, unescape, "hash", i) ==> p.hash == Entry(pairs[i], unescape).value.1)
  {
    var es := Entries(pairs, unescape);
    EntriesHashWins(es);
    forall i | IsLast(pairs, unescape, "hash", i)
      ensures ParsePairs(pairs, unescape).hash == Entry(pairs[i], unescape).value.1
    {
      assert IsLastEntry(es, "hash", i);
    }
  }

  // ---------------------------------------------------------------------------
  // The data-check string

  /** One `key=value` line. */
  function Line(params: map<string, string>, k: string): string
    requires k in params
  {
    k + "=" + params[k]
  }

  /** The parameter names in ordinal order. */
  function SortedKeys(params: map<string, string>): (keys: seq<string>)
    ensures |keys| == |params|
    ensures forall k :: k in keys <==> k in params
    ensures forall i, j :: 0 <= i < j < |keys| ==> Order.LexLe(keys[i], keys[j]) && keys[i] != keys[j]
  {
    assert |params.Keys| == |params|;
    Order.SortedStrings(params.Keys)
  }

  /** The lines of the data-check string: one `key=value` per parameter, in ordinal key order. */
  function CheckLines(params: map<string, string>): (lines: seq<string>)
    ensures |lines| == |params|
    ensures forall i :: 0 <= i < |lines| ==>
      var k := SortedKeys(params)[i];
      k in params && lines[i] == k + "=" + params[k]
  {
    var keys := SortedKeys(params);
    seq(|keys|, i requires 0 <= i < |keys| => Line(params, keys[i]))
  }

  /** The data-check string: the lines joined by a line feed. */
  function DataCheckString(params: map<string, string>): string {
    Join("\n", CheckLines(params))
  }

  // ---------------------------------------------------------------------------
  // Verification

  /** `TelegramUser`. */
  datatype TelegramUser = TelegramUser(
    id: int, firstName: string, lastName: Option<string>, username: Option<string>, languageCode: Option<string>)

  /** What `JsonSerializer.Deserialize<TelegramUser>` does with a text: it throws on
      malformed input, returns null for the JSON literal `null`, or returns a user. */
  datatype JsonResult = Malformed | JsonNull | JsonUser(user: TelegramUser)

  /** The HMAC key the second step uses: the UTF-8 bytes of the hex text of the first
      step's digest. */
  function SecondKey(botToken: string, hmac: (seq<byte>, seq<byte>) -> seq<byte>): seq<byte> {
    Utf8(ComputeHmac(botToken, "WebAppData", hmac))
  }

  /** The hash the verifier expects for the given parameters. */
  function ExpectedHash(params: map<string, string>, botToken: string, hmac: (seq<byte>, seq<byte>) -> seq<byte>): string {
    var secretKey := ComputeHmac(botToken, "WebAppData", hmac);
    ComputeHmac(DataCheckString(params), secretKey, hmac)
  }

  /** `VerifyAndParse`: valid exactly when a non-empty hash was given, it equals the
      expected hash character for character, the `user` parameter is present and
      non-empty, and its JSON does not throw; the user is returned only then (null for a
      JSON `null`). Every rejection returns no user. */
  function VerifyAndParse(
    initData: string, botToken: string,
    unescape: string -> string, hmac: (seq<byte>, seq<byte>) -> seq<byte>, json: string -> JsonResult)
    : (r: (bool, Option<TelegramUser>))
    ensures var p := ParsePairs(Split(initData, '&'), unescape);
      r.0 <==>
        && p.hash != ""
        && ExpectedHash(p.params, botToken, hmac) == p.hash
        && "user" in p.params && p.params["user"] != ""
        && !json(p.params["user"]).Malformed?
    ensures !r.0 ==> r.1.None?
    ensures r.0 ==> var u := json(ParsePairs(Split(initData, '&'), unescape).params["user"]);
      r.1 == if u.JsonUser? then Some(u.user) else None
  {
    var p := ParsePairs(Split(initData, '&'), unescape);
    if p.hash == "" then (false, None)
    else if ExpectedHash(p.params, botToken, hmac) != p.hash then (false, None)
    else if "user" !in p.params || p.params["user"] == "" then (false, None)
    else
      match json(p.params["user"])
      case Malformed => (false, None)
      case JsonNull => (true, None)
      case JsonUser(u) => (true, Some(u))
  }

  /** The comparison is case-sensitive and the expected hash is lower-case hex: a
      supplied hash holding any other character (an upper-case hex digit, say) is
      rejected, and so is one whose length is not twice the digest length. */
  lemma OnlyLowerHexAccepted(
    initData: string, botToken: string,
    unescape: string -> string, hmac: (seq<byte>, seq<byte>) -> seq<byte>, json: string -> JsonResult)
    ensures var p := ParsePairs(Split(initData, '&'), unescape);
      var digest := hmac(SecondKey(botToken, hmac), Utf8(DataCheckString(p.params)));
      VerifyAndParse(initData, botToken, unescape, hmac, json).0 ==>
        |p.hash| == 2 * |digest| && ParseHex(p.hash) == Some(digest)
  {
  }

  /** The deviation from Telegram's procedure: Telegram keys the second HMAC with the
      raw bytes of the first digest; this verifier keys it with the UTF-8 bytes of that
      digest's hex text, which are twice as long (64 bytes for a 32-byte SHA-256
      digest) and so never the same key. */
  lemma SecondKeyIsHexText(botToken: string, hmac: (seq<byte>, seq<byte>) -> seq<byte>)
    ensures var secret := hmac(Utf8("WebAppData"), Utf8(botToken));
      && |SecondKey(botToken, hmac)| == 2 * |secret|
      && (|secret| > 0 ==> SecondKey(botToken, hmac) != secret)
      && (|secret| == 32 ==> |SecondKey(botToken, hmac)| == 64)
  {
    HexBytesPerDigit(ComputeHmac(botToken, "WebAppData", hmac));
  }

  /** Hex text is ASCII, so its UTF-8 encoding has one byte per digit. */
  lemma HexBytesPerDigit(h: string)
    requires forall i :: 0 <= i < |h| ==> IsLowerHexDigit(h[i])
    ensures |Utf8(h)| == |h|
  {
    assert IsAscii(h);
  }
}
