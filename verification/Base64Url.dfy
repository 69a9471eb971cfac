/** base64url (section 5 of RFC 4648) on top of base64 (section 4) as
    modp_b64 encodes and decodes it, with the padding policies. */
module Base64Url {
  import opened Basics
  import Words

  type Byte = n: int | 0 <= n < 256

  datatype EncodePolicy = IncludePadding | OmitPadding
  datatype DecodePolicy = RequirePadding | IgnorePadding | DisallowPadding

  // ----- base64

  /** The alphabet: A-Z, a-z, 0-9, '+', '/'. */
  function Char(v: int): char
    requires 0 <= v < 64
  {
    if v < 26 then (v + 'A' as int) as char
    else if v < 52 then (v - 26 + 'a' as int) as char
    else if v < 62 then (v - 52 + '0' as int) as char
    else if v == 62 then '+' else '/'
  }

  /** The value of a character of the alphabet, -1 for any other. */
  function Digit(c: char): (v: int)
    ensures -1 <= v < 64
  {
    if 'A' <= c <= 'Z' then c as int - 'A' as int
    else if 'a' <= c <= 'z' then c as int - 'a' as int + 26
    else if '0' <= c <= '9' then c as int - '0' as int + 52
    else if c == '+' then 62 else if c == '/' then 63 else -1
  }

  /** Three bytes as four characters. */
  function GroupChars(b0: Byte, b1: Byte, b2: Byte): (s: string)
    ensures |s| == 4
  {
    [Char(b0 / 4), Char(b0 % 4 * 16 + b1 / 16), Char(b1 % 16 * 4 + b2 / 64), Char(b2 % 64)]
  }

  /** The characters for the data, without padding: 4 for each 3 bytes, and 2
      or 3 for a rest of 1 or 2. */
  function Chars(data: seq<Byte>): string {
    if |data| == 0 then ""
    else if |data| == 1 then GroupChars(data[0], 0, 0)[..2]
    else if |data| == 2 then GroupChars(data[0], data[1], 0)[..3]
    else GroupChars(data[0], data[1], data[2]) + Chars(data[3..])
  }

  function Pads(n: nat): string {
    seq(n, k => '=')
  }

  /** How many pad characters bring `n` characters to a multiple of 4. */
  function Missing(n: nat): nat {
    if n % 4 == 0 then 0 else 4 - n % 4
  }

  function Encode(data: seq<Byte>): string {
    Chars(data) + Pads(Missing(|Chars(data)|))
  }

  /** Decodes characters without padding; surplus low bits are ignored.  A rest
      of one character, which cannot arise below, is refused. */
  function DecodeChars(s: string): Option<seq<Byte>> {
    if s == "" then Some([])
    else if |s| == 1 || !InAlphabet(s[..if |s| < 4 then |s| else 4]) then None
    else if |s| == 2 then Some(GroupBytes(s)[..1])
    else if |s| == 3 then Some(GroupBytes(s)[..2])
    else
      match DecodeChars(s[4..])
      case None => None
      case Some(rest) => Some(GroupBytes(s) + rest)
  }

  predicate InAlphabet(s: string) {
    forall k :: 0 <= k < |s| ==> Digit(s[k]) >= 0
  }

  /** The bytes of the first four characters, missing ones counting as zero. */
  function GroupBytes(s: string): (r: seq<Byte>)
    requires |s| >= 2 && InAlphabet(s[..if |s| < 4 then |s| else 4])
    ensures |r| == 3
  {
    var d0, d1 := Value(s, 0), Value(s, 1);
    var d2, d3 := Value(s, 2), Value(s, 3);
    [d0 * 4 + d1 / 16, d1 % 16 * 16 + d2 / 4, d2 % 4 * 64 + d3]
  }

  function Value(s: string, k: nat): (v: int)
    requires k < 4 && InAlphabet(s[..if |s| < 4 then |s| else 4])
    ensures 0 <= v < 64
  {
    if k < |s| then assert s[k] == s[..if |s| < 4 then |s| else 4][k]; Digit(s[k]) else 0
  }

  /** The length without the one or two pad characters that are stripped. */
  function Stripped(s: string): nat {
    if s == "" || s[|s| - 1] != '=' then |s|
    else if |s| == 1 || s[|s| - 2] != '=' then |s| - 1
    else |s| - 2
  }

  function Decode(s: string): Option<seq<Byte>> {
    if s == "" then Some([])
    else if |s| < 4 || |s| % 4 != 0 then None
    else DecodeChars(s[..Stripped(s)])
  }

  // ----- base64url

  function Replace(s: string, from: char, to: char): string {
    seq(|s|, k requires 0 <= k < |s| => if s[k] == from then to else s[k])
  }

  function Safe(s: string): string {
    Replace(Replace(s, '+', '-'), '/', '_')
  }

  function Unsafe(s: string): string {
    Replace(Replace(s, '-', '+'), '_', '/')
  }

  /** The number of '=' at the end. */
  function Trailing(s: string): (n: nat)
    ensures n <= |s|
    ensures n < |s| ==> s[|s| - 1 - n] != '='
    ensures forall k :: |s| - n <= k < |s| ==> s[k] == '='
  {
    if s == "" || s[|s| - 1] != '=' then 0 else 1 + Trailing(s[..|s| - 1])
  }

  function UrlEncode(data: seq<Byte>, policy: EncodePolicy): string {
    var s := Safe(Encode(data));
    match policy
    case IncludePadding => s
    case OmitPadding => if Trailing(s) < |s| then s[..|s| - Trailing(s)] else s
  }

  predicate Refused(s: string, policy: DecodePolicy) {
    || '+' in s || '/' in s
    || (policy == RequirePadding && |s| % 4 > 0)
    || (policy == DisallowPadding && '=' in s)
  }

  /** The base64 text that is decoded: changed only where that is needed. */
  function Completed(s: string): string {
    if |s| % 4 > 0 || '-' in s || '_' in s then Unsafe(s) + Pads(Missing(|s|)) else s
  }

  function UrlDecode(s: string, policy: DecodePolicy): Option<seq<Byte>> {
    if Refused(s, policy) then None else Decode(Completed(s))
  }

  method ReplaceChars(s: string, from: char, to: char) returns (r: string)
    ensures r == Replace(s, from, to)
  {
    r := s;
    var k := 0;
    while k < |r|
      invariant |r| == |s| && k <= |r|
      invariant forall j :: 0 <= j < k ==> r[j] == if s[j] == from then to else s[j]
      invariant forall j :: k <= j < |r| ==> r[j] == s[j]
    {
      if r[k] == from {
        r := r[k := to];
      }
      k := k + 1;
    }
  }

  /** The loop of modp_b64_encode over whole groups. */
  method EncodeGroups(data: seq<Byte>) returns (out: string, i: nat, ghost groups: nat)
    ensures i == 3 * groups && i <= |data| < i + 3
    ensures out + Chars(data[i..]) == Chars(data)
  {
    out, i, groups := "", 0, 0;
    assert data[0..] == data;
    while i + 2 < |data|
      invariant i <= |data| && i == 3 * groups
      invariant out + Chars(data[i..]) == Chars(data)
    {
      var group := GroupChars(data[i], data[i + 1], data[i + 2]);
      NextGroup(data, i, out, group);
      out := out + group;
      i, groups := i + 3, groups + 1;
    }
  }

  /** modp_b64_encode: whole groups, then the rest with its padding. */
  method Base64Encode(data: seq<Byte>) returns (out: string)
    ensures out == Encode(data)
  {
    var i;
    ghost var groups;
    out, i, groups := EncodeGroups(data);
    var rest := data[i..];
    RestPads(data, rest, groups);
    out := out + Chars(rest) + Pads(if |rest| == 0 then 0 else if |rest| == 1 then 2 else 1);
  }

  lemma RestPads(data: seq<Byte>, rest: seq<Byte>, groups: nat)
    requires |rest| <= 2 && |data| == 3 * groups + |rest|
    ensures Missing(|Chars(data)|) == if |rest| == 0 then 0 else if |rest| == 1 then 2 else 1
  {
    CharsLength(data);
    MissingAfter(|data|, groups, |rest|);
  }

  lemma MissingAfter(n: nat, groups: nat, r: nat)
    requires n == 3 * groups + r && r <= 2
    ensures Missing(CharCount(n)) == if r == 0 then 0 else 3 - r
  {
    PadCount(n);
    assert n % 3 == r;
  }

  lemma NextGroup(data: seq<Byte>, i: nat, out: string, group: string)
    requires i + 2 < |data| && group == GroupChars(data[i], data[i + 1], data[i + 2])
    ensures out + Chars(data[i..]) == out + group + Chars(data[i + 3..])
  {
    var rest := data[i..];
    assert rest[3..] == data[i + 3..] && rest[0] == data[i] && rest[1] == data[i + 1] && rest[2] == data[i + 2];
    assert Chars(rest) == group + Chars(rest[3..]);
    Regroup(out, group, Chars(data[i + 3..]));
  }

  method Base64UrlEncode(data: seq<Byte>, policy: EncodePolicy) returns (output: string)
    ensures output == UrlEncode(data, policy)
  {
    output := Base64Encode(data);
    output := ReplaceChars(output, '+', '-');
    output := ReplaceChars(output, '/', '_');
    if policy == OmitPadding {
      var last := FindLastNotPad(output);
      if last > 0 {
        output := output[..last];
      }
    }
  }

  /** One past the last character that is not a pad. */
  method FindLastNotPad(s: string) returns (last: nat)
    ensures last == |s| - Trailing(s)
  {
    last := |s|;
    assert s[..last] == s;
    while last > 0 && s[last - 1] == '='
      invariant last <= |s|
      invariant Trailing(s) == |s| - last + Trailing(s[..last])
    {
      assert s[..last][..last - 1] == s[..last - 1];
      last := last - 1;
    }
  }

  method Base64UrlDecode(input: string, policy: DecodePolicy) returns (r: Option<seq<Byte>>)
    ensures r == UrlDecode(input, policy)
  {
    if '+' in input || '/' in input {
      return None;
    }
    var required := |input| % 4;
    var needsReplacement := '-' in input || '_' in input;
    match policy {
      case RequirePadding => if required > 0 { return None; }
      case IgnorePadding =>
      case DisallowPadding => if '=' in input { return None; }
    }
    if required > 0 || needsReplacement {
      var base64 := Adjusted(input);
      return Decode(base64);
    }
    return Decode(input);
  }

  /** The copy that is decoded: URL-safe characters replaced, pads appended. */
  method Adjusted(input: string) returns (base64: string)
    ensures base64 == Unsafe(input) + Pads(Missing(|input|))
  {
    var required := |input| % 4;
    base64 := ReplaceChars(input, '-', '+');
    base64 := ReplaceChars(base64, '_', '/');
    base64 := base64 + Pads(if required > 0 then 4 - required else 0);
  }

  // ----- base64 round trip

  lemma DigitOfChar(v: int)
    requires 0 <= v < 64
    ensures Digit(Char(v)) == v
  {}

  lemma GroupShape(b0: Byte, b1: Byte, b2: Byte)
    ensures InAlphabet(GroupChars(b0, b1, b2))
  {
    DigitOfChar(b0 / 4);
    DigitOfChar(b0 % 4 * 16 + b1 / 16);
    DigitOfChar(b1 % 16 * 4 + b2 / 64);
    DigitOfChar(b2 % 64);
  }

  lemma {:induction false} CharsAlphabet(data: seq<Byte>)
    ensures InAlphabet(Chars(data))
    decreases |data|
  {
    if |data| == 1 {
      GroupShape(data[0], 0, 0);
    } else if |data| == 2 {
      GroupShape(data[0], data[1], 0);
    } else if |data| > 2 {
      GroupShape(data[0], data[1], data[2]);
      CharsAlphabet(data[3..]);
    }
  }

  lemma {:induction false} CharsLength(data: seq<Byte>)
    ensures |Chars(data)| == CharCount(|data|)
    decreases |data|
  {
    if |data| > 2 {
      CharsLength(data[3..]);
      CharCountStep(|data|);
    }
  }

  function CharCount(n: nat): nat {
    n / 3 * 4 + if n % 3 == 0 then 0 else n % 3 + 1
  }

  lemma CharCountStep(n: nat)
    requires n >= 3
    ensures CharCount(n) == 4 + CharCount(n - 3)
  {
    assert (n - 3) / 3 == n / 3 - 1 && (n - 3) % 3 == n % 3;
  }

  /** Full groups need no pad, a rest of 1 byte two, a rest of 2 bytes one. */
  lemma PadCount(n: nat)
    ensures Missing(CharCount(n)) == if n % 3 == 0 then 0 else 3 - n % 3
    ensures CharCount(n) % 4 == 0 <==> n % 3 == 0
    ensures CharCount(n) == 0 <==> n == 0
  {
    var q, r := n / 3, n % 3;
    RestOf4(q, if r == 0 then 0 else r + 1);
  }

  lemma RestOf4(q: nat, e: nat)
    requires e < 4
    ensures (q * 4 + e) % 4 == e
  {}

  lemma MissingFills(n: nat)
    ensures (n + Missing(n)) % 4 == 0 && Missing(n) <= 3 && (n > 0 ==> n + Missing(n) >= 4)
    ensures Missing(n) == 0 <==> n % 4 == 0
  {}

  /** The first `n` characters of a group give back its first `n - 1` bytes when
      the bits that are cut off are zero. */
  lemma GroupRoundTrip(b0: Byte, b1: Byte, b2: Byte, n: nat, s: string)
    requires 2 <= n <= 4 && (n < 4 ==> b2 == 0) && (n < 3 ==> b1 == 0)
    requires s == GroupChars(b0, b1, b2)[..n]
    ensures InAlphabet(s) && InAlphabet(s[..n])
    ensures s[..n] == s && GroupBytes(s) == [b0, b1, b2]
  {
    GroupShape(b0, b1, b2);
    var c := GroupChars(b0, b1, b2);
    assert forall k :: 0 <= k < n ==> s[k] == c[k];
    assert s[..n] == s;
    GroupValues(b0, b1, b2, n, s);
    Recombine(b0, b1, b2);
  }

  lemma GroupValues(b0: Byte, b1: Byte, b2: Byte, n: nat, s: string)
    requires 2 <= n <= 4 && (n < 4 ==> b2 == 0) && (n < 3 ==> b1 == 0)
    requires s == GroupChars(b0, b1, b2)[..n] && InAlphabet(s[..n])
    ensures Value(s, 0) == b0 / 4 && Value(s, 1) == b0 % 4 * 16 + b1 / 16
    ensures Value(s, 2) == b1 % 16 * 4 + b2 / 64 && Value(s, 3) == b2 % 64
  {
    DigitOfChar(b0 / 4);
    DigitOfChar(b0 % 4 * 16 + b1 / 16);
    DigitOfChar(b1 % 16 * 4 + b2 / 64);
    DigitOfChar(b2 % 64);
  }

  lemma Recombine(b0: Byte, b1: Byte, b2: Byte)
    ensures var d0, d1, d2, d3 := b0 / 4, b0 % 4 * 16 + b1 / 16, b1 % 16 * 4 + b2 / 64, b2 % 64;
      d0 * 4 + d1 / 16 == b0 && d1 % 16 * 16 + d2 / 4 == b1 && d2 % 4 * 64 + d3 == b2
  {}

  lemma FirstGroup(s: string)
    requires |s| >= 4 && InAlphabet(s[..4])
    ensures GroupBytes(s) == GroupBytes(s[..4]) && s[..4][..4] == s[..4]
  {
    assert s[..4][..4] == s[..4];
  }

  lemma {:induction false} CharsRoundTrip(data: seq<Byte>)
    ensures DecodeChars(Chars(data)) == Some(data)
    decreases |data|
  {
    var s := Chars(data);
    if |data| == 1 {
      GroupRoundTrip(data[0], 0, 0, 2, s);
      assert data == GroupBytes(s)[..1];
    } else if |data| == 2 {
      GroupRoundTrip(data[0], data[1], 0, 3, s);
      assert data == GroupBytes(s)[..2];
    } else if |data| > 2 {
      CharsRoundTrip(data[3..]);
      FullGroupRoundTrip(data, s);
    }
  }

  lemma FullGroupRoundTrip(data: seq<Byte>, s: string)
    requires |data| > 2 && s == Chars(data) && DecodeChars(Chars(data[3..])) == Some(data[3..])
    ensures DecodeChars(s) == Some(data)
  {
    var g := GroupChars(data[0], data[1], data[2]);
    assert s[..4] == g && g[..4] == g && s[4..] == Chars(data[3..]);
    GroupRoundTrip(data[0], data[1], data[2], 4, s[..4]);
    FirstGroup(s);
    assert data == [data[0], data[1], data[2]] + data[3..];
  }

  /** Stripping finds the end of the characters when at most two pads follow. */
  lemma StrippedIs(body: string, p: nat)
    requires '=' !in body && p <= 2
    ensures Stripped(body + Pads(p)) == |body|
  {
    var s := body + Pads(p);
    assert forall k :: 0 <= k < |body| ==> s[k] in body;
    assert forall k :: |body| <= k < |s| ==> s[k] == '=';
  }

  lemma DecodePadded(body: string, p: nat)
    requires '=' !in body && p == Missing(|body|) <= 2
    ensures Decode(body + Pads(p)) == DecodeChars(body)
  {
    var s := body + Pads(p);
    StrippedIs(body, p);
    MissingFills(|body|);
    assert s[..Stripped(s)] == body;
    assert |s| == |body| + p;
    if body == "" {
      assert s == "";
    } else {
      assert |s| >= 4 && |s| % 4 == 0;
    }
  }

  // ----- the URL-safe alphabet

  lemma SafeRoundTrip(s: string)
    requires '-' !in s && '_' !in s
    ensures Unsafe(Safe(s)) == s && '+' !in Safe(s) && '/' !in Safe(s)
    ensures forall k :: 0 <= k < |s| ==> (Safe(s)[k] == '=' <==> s[k] == '=')
  {
    assert forall k :: 0 <= k < |s| ==> s[k] in s;
  }

  lemma UnsafeNothing(s: string)
    requires '-' !in s && '_' !in s
    ensures Unsafe(s) == s
  {
    assert forall k :: 0 <= k < |s| ==> s[k] in s;
  }

  lemma AlphabetAvoids(s: string)
    requires InAlphabet(s)
    ensures '=' !in s && '-' !in s && '_' !in s
  {}

  /** However the text is passed on, what is decoded is the text in the base64
      alphabet, padded to a multiple of 4. */
  lemma UrlDecodeIs(s: string, policy: DecodePolicy)
    requires '+' !in s && '/' !in s
    requires policy == RequirePadding ==> |s| % 4 == 0
    requires policy == DisallowPadding ==> '=' !in s
    ensures !Refused(s, policy) && Completed(s) == Unsafe(s) + Pads(Missing(|s|))
  {
    if !(|s| % 4 > 0 || '-' in s || '_' in s) {
      UnsafeNothing(s);
      assert s + Pads(0) == s;
    }
  }

  lemma PadsAppend(m: nat, n: nat)
    ensures Pads(m) + Pads(n) == Pads(m + n)
  {}

  lemma UnsafePads(body: string, n: nat)
    ensures Unsafe(body + Pads(n)) == Unsafe(body) + Pads(n)
  {}

  lemma SafePads(body: string, n: nat)
    ensures Safe(body + Pads(n)) == Safe(body) + Pads(n)
  {}

  lemma TrailingIs(body: string, n: nat)
    requires body == "" || body[|body| - 1] != '='
    ensures Trailing(body + Pads(n)) == n
  {
    var s := body + Pads(n);
    assert forall k :: |body| <= k < |s| ==> s[k] == '=';
    assert body != "" ==> s[|body| - 1] == body[|body| - 1];
  }

  lemma SafeBody(data: seq<Byte>)
    ensures var body := Safe(Chars(data));
      '=' !in body && '+' !in body && '/' !in body && Unsafe(body) == Chars(data) && '=' !in Chars(data)
  {
    var c := Chars(data);
    CharsAlphabet(data);
    AlphabetAvoids(c);
    SafeRoundTrip(c);
    assert forall k :: 0 <= k < |c| ==> c[k] in c;
  }

  lemma OmittedIs(body: string, p: nat)
    requires '=' !in body && (body == "" ==> p == 0)
    ensures var s := body + Pads(p); (if Trailing(s) < |s| then s[..|s| - Trailing(s)] else s) == body
  {
    TrailingIs(body, p);
    assert (body + Pads(p))[..|body|] == body;
  }

  /** The encoder's output: the URL-safe characters and, if asked for, pads. */
  lemma UrlEncodeIs(data: seq<Byte>, policy: EncodePolicy)
    ensures var body := Safe(Chars(data));
      UrlEncode(data, policy) == body + Pads(if policy == IncludePadding then Missing(|body|) else 0)
  {
    var body, p := Safe(Chars(data)), Missing(|Chars(data)|);
    SafeBody(data);
    SafePads(Chars(data), p);
    MissingFills(|body|);
    OmittedIs(body, p);
    assert body + Pads(0) == body;
  }

  /** A text of URL-safe characters and pads, as far as its pads are allowed. */
  lemma UrlDecodeOf(body: string, n: nat, policy: DecodePolicy, s: string)
    requires '=' !in body && '+' !in body && '/' !in body
    requires n == 0 || n == Missing(|body|)
    requires s == body + Pads(n)
    ensures if (policy == RequirePadding && |s| % 4 != 0) || (policy == DisallowPadding && n > 0) then Refused(s, policy)
      else !Refused(s, policy) && Completed(s) == Unsafe(body) + Pads(Missing(|body|))
  {
    PadsIn(body, n);
    MissingFills(|body|);
    if !((policy == RequirePadding && |s| % 4 != 0) || (policy == DisallowPadding && n > 0)) {
      UrlDecodeIs(s, policy);
      CompletedPads(body, n, s);
      assert Missing(|s|) == if n == 0 then Missing(|body|) else 0;
    }
  }

  lemma CompletedPads(body: string, n: nat, s: string)
    requires s == body + Pads(n)
    ensures Unsafe(s) + Pads(Missing(|s|)) == Unsafe(body) + Pads(n + Missing(|s|))
  {
    UnsafePads(body, n);
    PadsAppend(n, Missing(|s|));
    Regroup(Unsafe(body), Pads(n), Pads(Missing(|s|)));
  }

  lemma PadsIn(body: string, n: nat)
    ensures forall c :: c in body + Pads(n) <==> c in body || (c == '=' && n > 0)
  {
    var s := body + Pads(n);
    assert n > 0 ==> s[|body|] == '=';
  }

  /** Every byte string, every pair of policies: decoding the encoding gives the
      string back, except that padding the decoder disallows or misses makes it
      fail. */
  lemma UrlRoundTrip(data: seq<Byte>, ep: EncodePolicy, dp: DecodePolicy)
    ensures UrlDecode(UrlEncode(data, ep), dp) ==
      if |data| % 3 != 0 && ((ep == IncludePadding && dp == DisallowPadding) || (ep == OmitPadding && dp == RequirePadding))
      then None else Some(data)
  {
    var body := Safe(Chars(data));
    var p := Missing(|body|);
    SafeBody(data);
    UrlEncodeIs(data, ep);
    CharsLength(data);
    PadCount(|data|);
    MissingFills(|body|);
    UrlDecodeOf(body, if ep == IncludePadding then p else 0, dp, UrlEncode(data, ep));
    DecodePadded(Chars(data), p);
    CharsRoundTrip(data);
  }

  // ----- what the decoder accepts

  lemma {:induction false} DecodeCharsAccepts(s: string)
    requires |s| % 4 != 1
    ensures DecodeChars(s).Some? <==> InAlphabet(s)
    decreases |s|
  {
    if |s| >= 4 {
      DecodeCharsAccepts(s[4..]);
      assert forall k :: 4 <= k < |s| ==> s[k] == s[4..][k - 4];
    }
  }

  /** Padded to a multiple of 4, a text decodes iff its characters are in the
      alphabet and its pads are the ones missing. */
  lemma PaddedAccepts(body: string, p: nat)
    requires (body == "" || body[|body| - 1] != '=') && (|body| + p) % 4 == 0
    ensures Decode(body + Pads(p)).Some? <==> InAlphabet(body) && p <= 2 && (body == "" ==> p == 0)
  {
    var s := body + Pads(p);
    if s == "" {
    } else if p <= 2 && body != "" {
      StrippedAt(body, p);
      assert s[..|body|] == body;
      DecodeCharsAccepts(body);
    } else {
      var k := |s| - 3;
      assert s[|s| - 1] == '=' && s[|s| - 2] == '=' && s[k] == '=';
      DecodeCharsAccepts(s[..|s| - 2]);
      assert s[..|s| - 2][k] == '=';
    }
  }

  lemma StrippedAt(body: string, p: nat)
    requires body != "" && body[|body| - 1] != '=' && p <= 2
    ensures Stripped(body + Pads(p)) == |body|
  {
    var s := body + Pads(p);
    assert s[|body| - 1] == body[|body| - 1];
  }

  /** The number of pads after `n` characters is what the policy wants. */
  predicate PadsSuit(n: nat, p: nat, policy: DecodePolicy) {
    match policy
    case RequirePadding => p == Missing(n)
    case IgnorePadding => p <= Missing(n)
    case DisallowPadding => p == 0
  }

  predicate Acceptable(body: string, p: nat, policy: DecodePolicy) {
    && '+' !in body && '/' !in body && InAlphabet(Unsafe(body))
    && |body| % 4 != 1 && PadsSuit(|body|, p, policy)
  }

  /** For every text, split into its characters and its trailing pads: it is
      decoded iff the characters are base64url, their number is not one more
      than a multiple of 4, and there are as many pads as the policy wants. */
  lemma UrlDecodeAccepts(s: string, policy: DecodePolicy)
    ensures UrlDecode(s, policy).Some? <==> Acceptable(s[..|s| - Trailing(s)], Trailing(s), policy)
  {
    var body, p := BodyAndPads(s);
    SplitAccepts(body, p, policy, s);
  }

  lemma SplitAccepts(body: string, p: nat, policy: DecodePolicy, s: string)
    requires s == body + Pads(p) && (body == "" || body[|body| - 1] != '=')
    ensures UrlDecode(s, policy).Some? <==> Acceptable(body, p, policy)
  {
    if Refused(s, policy) {
      RefusedIsUnacceptable(body, p, policy, s);
    } else {
      DecodedText(body, p, policy, s);
      DecodedIsAcceptable(body, p, policy, s);
    }
  }

  lemma DecodedText(body: string, p: nat, policy: DecodePolicy, s: string)
    requires s == body + Pads(p) && !Refused(s, policy)
    ensures UrlDecode(s, policy) == Decode(Unsafe(body) + Pads(p + Missing(|s|)))
  {
    UrlDecodeIs(s, policy);
    CompletedPads(body, p, s);
  }

  /** Any text is a body that does not end in a pad, and its pads. */
  lemma BodyAndPads(s: string) returns (body: string, p: nat)
    ensures p == Trailing(s) && body == s[..|s| - Trailing(s)]
    ensures s == body + Pads(p) && (body == "" || body[|body| - 1] != '=')
  {
    p := Trailing(s);
    body := s[..|s| - p];
  }

  lemma RefusedIsUnacceptable(body: string, p: nat, policy: DecodePolicy, s: string)
    requires s == body + Pads(p) && Refused(s, policy)
    ensures !Acceptable(body, p, policy)
  {
    PadsIn(body, p);
    EqualsIsNoDigit(body);
    MissingFills(|body|);
  }

  lemma DecodedIsAcceptable(body: string, p: nat, policy: DecodePolicy, s: string)
    requires s == body + Pads(p) && !Refused(s, policy) && (body == "" || body[|body| - 1] != '=')
    ensures Decode(Unsafe(body) + Pads(p + Missing(|s|))).Some? <==> Acceptable(body, p, policy)
  {
    UnsafePadded(body, p, s);
    OnlyUrlSafe(body, p, policy, s);
    PolicyArithmetic(body, p, policy, s);
  }

  lemma UnsafePadded(body: string, p: nat, s: string)
    requires s == body + Pads(p) && (body == "" || body[|body| - 1] != '=')
    ensures var n := p + Missing(|s|);
      Decode(Unsafe(body) + Pads(n)).Some? <==> InAlphabet(Unsafe(body)) && n <= 2 && (body == "" ==> n == 0)
  {
    UnsafeEnd(body);
    FilledUp(|body|, p);
    PaddedAccepts(Unsafe(body), p + Missing(|s|));
  }

  lemma UnsafeEnd(body: string)
    ensures |Unsafe(body)| == |body|
    ensures body != "" && body[|body| - 1] != '=' ==> Unsafe(body)[|body| - 1] != '='
  {}

  lemma FilledUp(n: nat, p: nat)
    ensures (n + (p + Missing(n + p))) % 4 == 0
  {
    MissingFills(n + p);
  }

  lemma OnlyUrlSafe(body: string, p: nat, policy: DecodePolicy, s: string)
    requires s == body + Pads(p) && !Refused(s, policy)
    ensures '+' !in body && '/' !in body
  {
    PadsIn(body, p);
  }

  /** Once the text is not refused, having at most two pads in all is what the
      policy asks. */
  lemma PolicyArithmetic(body: string, p: nat, policy: DecodePolicy, s: string)
    requires s == body + Pads(p) && !Refused(s, policy)
    ensures |body| % 4 != 1 && PadsSuit(|body|, p, policy) <==> p + Missing(|s|) <= 2 && (body == "" ==> p + Missing(|s|) == 0)
  {
    PadsIn(body, p);
    PadArithmetic(|body|, p);
    MissingFills(|s|);
    MissingFills(|body|);
    assert |s| == |body| + p;
  }

  lemma EqualsIsNoDigit(body: string)
    ensures '=' in body ==> !InAlphabet(Unsafe(body))
    ensures body != "" && body[|body| - 1] != '=' ==> Unsafe(body)[|body| - 1] != '='
  {
    if k :| 0 <= k < |body| && body[k] == '=' { assert Unsafe(body)[k] == '='; }
  }

  /** Padding `n + p` to a multiple of 4 leaves at most two pads in all exactly
      when `n` is not one more than a multiple and `p` not more than missing. */
  lemma PadArithmetic(n: nat, p: nat)
    ensures p + Missing(n + p) <= 2 <==> n % 4 != 1 && p <= Missing(n)
    ensures (n + p) % 4 == 0 && p <= Missing(n) ==> p == Missing(n)
    ensures n == 0 ==> Missing(n) == 0
  {
    var q, r := n / 4, n % 4;
    assert n == 4 * q + r;
    if p <= 3 {
      assert (n + p) % 4 == (r + p) % 4;
    }
  }

  // ----- as sections 4 and 5 of RFC 4648 put it

  /** The URL- and filename-safe alphabet: A-Z, a-z, 0-9, '-', '_'. */
  function UrlChar(v: nat): char
    requires v < 64
  {
    if v < 26 then 'A' + v as char else if v < 52 then 'a' + (v - 26) as char
    else if v < 62 then '0' + (v - 52) as char else if v == 62 then '-' else '_'
  }

  function ByteAt(data: seq<Byte>, j: nat): Byte {
    if j < |data| then data[j] else 0
  }

  /** Three bytes as a number of 24 bits, zeros filling up the last ones. */
  function InputGroup(data: seq<Byte>, g: nat): nat {
    ByteAt(data, 3 * g) * 0x1_0000 + ByteAt(data, 3 * g + 1) * 0x100 + ByteAt(data, 3 * g + 2)
  }

  /** Its `i`-th six bits, from the highest. */
  function Sextet(n: nat, i: nat): nat {
    (if i == 0 then n / 262144 else if i == 1 then n / 4096 else if i == 2 then n / 64 else n) % 64
  }

  lemma SextetsOf(b0: Byte, b1: Byte, b2: Byte)
    ensures var n := b0 * 0x1_0000 + b1 * 0x100 + b2;
      && Sextet(n, 0) == b0 / 4 && Sextet(n, 1) == b0 % 4 * 16 + b1 / 16
      && Sextet(n, 2) == b1 % 16 * 4 + b2 / 64 && Sextet(n, 3) == b2 % 64
  {
    var n := b0 * 0x1_0000 + b1 * 0x100 + b2;
    Cut(n, 262144, b0 / 4, b0 % 4 * 0x1_0000 + b1 * 0x100 + b2);
    Cut(n, 4096, b0 * 16 + b1 / 16, b1 % 16 * 0x100 + b2);
    Cut(b0 * 16 + b1 / 16, 64, b0 / 4, b0 % 4 * 16 + b1 / 16);
    Cut(n, 64, b0 * 1024 + b1 * 4 + b2 / 64, b2 % 64);
    Cut(b0 * 1024 + b1 * 4 + b2 / 64, 64, b0 * 16 + b1 / 16, b1 % 16 * 4 + b2 / 64);
  }

  lemma Cut(n: nat, m: nat, q: nat, r: nat)
    requires n == q * m + r && r < m
    ensures n / m == q && n % m == r
  {
    Words.DivModOf(n, m, q, r);
  }

  lemma NextInputGroup(data: seq<Byte>, g: nat)
    requires |data| > 2
    ensures InputGroup(data, g + 1) == InputGroup(data[3..], g)
  {
    assert 3 * (g + 1) == 3 * g + 3;
    ShiftedByte(data, 3 * g);
    ShiftedByte(data, 3 * g + 1);
    ShiftedByte(data, 3 * g + 2);
  }

  lemma ShiftedByte(data: seq<Byte>, j: nat)
    requires |data| > 2
    ensures ByteAt(data, j + 3) == ByteAt(data[3..], j)
  {}

  lemma FirstGroupChars(data: seq<Byte>, k: nat)
    requires k < 4 && k < |Chars(data)|
    ensures Chars(data)[k] == Char(Sextet(InputGroup(data, 0), k))
  {
    SextetsOf(ByteAt(data, 0), ByteAt(data, 1), ByteAt(data, 2));
  }

  /** The characters are the sextets of the input groups, in order. */
  lemma {:induction false} CharsAreSextets(data: seq<Byte>, k: nat)
    requires k < |Chars(data)|
    ensures Chars(data)[k] == Char(Sextet(InputGroup(data, k / 4), k % 4))
    decreases |data|
  {
    if k < 4 {
      FirstGroupChars(data, k);
      assert k / 4 == 0 && k % 4 == k;
    } else {
      CharsParts(data);
      CharsAreSextets(data[3..], k - 4);
      LaterSextet(data, k);
    }
  }

  lemma CharsParts(data: seq<Byte>)
    ensures |data| <= 2 ==> |Chars(data)| <= 3
    ensures |data| > 2 ==> |Chars(data)| == 4 + |Chars(data[3..])| && Chars(data)[4..] == Chars(data[3..])
  {}

  lemma LaterSextet(data: seq<Byte>, k: nat)
    requires |data| > 2 && k >= 4
    ensures Sextet(InputGroup(data, k / 4), k % 4) == Sextet(InputGroup(data[3..], (k - 4) / 4), (k - 4) % 4)
  {
    assert k / 4 == (k - 4) / 4 + 1 && (k - 4) % 4 == k % 4;
    NextInputGroup(data, (k - 4) / 4);
  }

  /** The encoding of every byte string: its sextets in the URL-safe alphabet, as
      many as its bits need, and with padding the '=' that fill up four. */
  lemma EncodesAsTheRfc(data: seq<Byte>, policy: EncodePolicy)
    ensures
      var s, n := UrlEncode(data, policy), (8 * |data| + 5) / 6;
      && |s| == n + (if policy == OmitPadding || n % 4 == 0 then 0 else 4 - n % 4)
      && (forall k :: 0 <= k < n ==> s[k] == UrlChar(Sextet(InputGroup(data, k / 4), k % 4)))
      && (forall k :: n <= k < |s| ==> s[k] == '=')
  {
    var s, n := UrlEncode(data, policy), (8 * |data| + 5) / 6;
    UrlEncodeIs(data, policy);
    CharsLength(data);
    CharCountIs(|data|);
    forall k | 0 <= k < n ensures s[k] == UrlChar(Sextet(InputGroup(data, k / 4), k % 4)) {
      CharsAreSextets(data, k);
      SafeChar(Chars(data), k, Sextet(InputGroup(data, k / 4), k % 4));
    }
  }

  lemma CharCountIs(n: nat)
    ensures CharCount(n) == (8 * n + 5) / 6
  {
    var q, r := n / 3, n % 3;
    assert n == 3 * q + r;
    assert 8 * n + 5 == 6 * (4 * q) + (8 * r + 5);
  }

  lemma SafeChar(s: string, k: nat, v: nat)
    requires k < |s| && v < 64 && s[k] == Char(v)
    ensures Safe(s)[k] == UrlChar(v)
  {}

  /** The value of a character of the URL-safe alphabet. */
  function UrlDigit(c: char): int {
    if c == '-' then 62 else if c == '_' then 63 else Digit(c)
  }

  lemma UrlDigitIs(v: nat)
    requires v < 64
    ensures UrlDigit(UrlChar(v)) == v
  {
    DigitOfChar(v);
  }

  function DigitAt(s: string, k: nat): int {
    if k < |s| then Digit(s[k]) else 0
  }

  /** Four characters as a number of 24 bits, zeros filling up the last ones. */
  function OutputGroup(s: string, g: nat): int {
    DigitAt(s, 4 * g) * 262144 + DigitAt(s, 4 * g + 1) * 4096 + DigitAt(s, 4 * g + 2) * 64 + DigitAt(s, 4 * g + 3)
  }

  /** Its `i`-th byte, from the highest. */
  function Octet(n: int, i: nat): int {
    (if i == 0 then n / 0x1_0000 else if i == 1 then n / 0x100 else n) % 0x100
  }

  lemma OctetsOf(d0: int, d1: int, d2: int, d3: int)
    requires 0 <= d0 < 64 && 0 <= d1 < 64 && 0 <= d2 < 64 && 0 <= d3 < 64
    ensures var n := d0 * 262144 + d1 * 4096 + d2 * 64 + d3;
      Octet(n, 0) == d0 * 4 + d1 / 16 && Octet(n, 1) == d1 % 16 * 16 + d2 / 4 && Octet(n, 2) == d2 % 4 * 64 + d3
  {
    var n := d0 * 262144 + d1 * 4096 + d2 * 64 + d3;
    Cut(n, 0x1_0000, d0 * 4 + d1 / 16, d1 % 16 * 4096 + d2 * 64 + d3);
    Cut(d0 * 4 + d1 / 16, 0x100, 0, d0 * 4 + d1 / 16);
    Cut(n, 0x100, d0 * 1024 + d1 * 16 + d2 / 4, d2 % 4 * 64 + d3);
    Cut(d0 * 1024 + d1 * 16 + d2 / 4, 0x100, d0 * 4 + d1 / 16, d1 % 16 * 16 + d2 / 4);
  }

  lemma FirstGroupBytes(s: string, i: nat)
    requires |s| >= 2 && i < 3 && InAlphabet(s[..if |s| < 4 then |s| else 4])
    ensures GroupBytes(s)[i] == Octet(OutputGroup(s, 0), i)
  {
    OctetsOf(Value(s, 0), Value(s, 1), Value(s, 2), Value(s, 3));
  }

  lemma NextOutputGroup(s: string, g: nat)
    requires |s| >= 4
    ensures OutputGroup(s, g + 1) == OutputGroup(s[4..], g)
  {
    assert 4 * (g + 1) == 4 * g + 4;
    ShiftedDigit(s, 4 * g);
    ShiftedDigit(s, 4 * g + 1);
    ShiftedDigit(s, 4 * g + 2);
    ShiftedDigit(s, 4 * g + 3);
  }

  lemma ShiftedDigit(s: string, k: nat)
    requires |s| >= 4
    ensures DigitAt(s, k + 4) == DigitAt(s[4..], k)
  {}

  lemma {:induction false} DecodedLength(s: string)
    requires DecodeChars(s).Some?
    ensures |DecodeChars(s).value| == |s| * 6 / 8
    decreases |s|
  {
    if |s| >= 4 { DecodedLength(s[4..]); }
  }

  /** The bytes are the octets of the output groups, in order. */
  lemma {:induction false} BytesAreOctets(s: string, j: nat)
    requires DecodeChars(s).Some? && j < |DecodeChars(s).value|
    ensures DecodeChars(s).value[j] == Octet(OutputGroup(s, j / 3), j % 3)
    decreases |s|
  {
    DecodedParts(s);
    if j < 3 {
      FirstOctet(s, j);
    } else {
      BytesAreOctets(s[4..], j - 3);
      LaterOctet(s, j);
    }
  }

  lemma FirstOctet(s: string, j: nat)
    requires DecodeChars(s).Some? && j < |DecodeChars(s).value| && j < 3
    ensures DecodeChars(s).value[j] == Octet(OutputGroup(s, j / 3), j % 3)
  {
    DecodedParts(s);
    FirstGroupBytes(s, j);
    assert j / 3 == 0 && j % 3 == j;
  }

  lemma LaterOctet(s: string, j: nat)
    requires |s| >= 4 && j >= 3
    ensures Octet(OutputGroup(s, j / 3), j % 3) == Octet(OutputGroup(s[4..], (j - 3) / 3), (j - 3) % 3)
  {
    NextGroupIndex(j);
    NextOutputGroup(s, (j - 3) / 3);
  }

  lemma NextGroupIndex(j: nat)
    requires j >= 3
    ensures j / 3 == (j - 3) / 3 + 1 && j % 3 == (j - 3) % 3
  {}

  /** The first group's bytes, as many as are there, and the rest. */
  lemma DecodedParts(s: string)
    requires DecodeChars(s).Some? && DecodeChars(s).value != []
    ensures |s| >= 2 && InAlphabet(s[..if |s| < 4 then |s| else 4])
    ensures |s| < 4 ==> DecodeChars(s).value == GroupBytes(s)[..|s| - 1]
    ensures |s| >= 4 ==> DecodeChars(s[4..]).Some? && DecodeChars(s).value == GroupBytes(s) + DecodeChars(s[4..]).value
  {}

  lemma DecodeIsChars(u: string, n: nat)
    requires (u == "" ==> n == 0) && (u != "" ==> u[|u| - 1] != '=') && n <= 2 && (|u| + n) % 4 == 0
    ensures Decode(u + Pads(n)) == DecodeChars(u)
  {
    if u == "" {
      assert u + Pads(n) == "";
    } else {
      StrippedAt(u, n);
      DecodeStripped(u + Pads(n), u);
    }
  }

  lemma DecodeStripped(s: string, u: string)
    requires |s| > 0 && |s| % 4 == 0 && u == s[..Stripped(s)]
    ensures Decode(s) == DecodeChars(u)
  {}

  /** Every text that is decoded: from its characters without trailing pads, each
      a digit of the URL-safe alphabet, the bytes they hold, as many as they fill. */
  lemma DecodesAsTheRfc(s: string, policy: DecodePolicy)
    requires UrlDecode(s, policy).Some?
    ensures
      var body, r := s[..|s| - Trailing(s)], UrlDecode(s, policy).value;
      && |r| == |body| * 6 / 8
      && forall j :: 0 <= j < |r| ==> r[j] == Octet(UrlGroup(body, j / 3), j % 3)
  {
    var body, p := BodyAndPads(s);
    SplitAccepts(body, p, policy, s);
    UrlDecodesChars(body, p, policy, s);
    var u, r := Unsafe(body), UrlDecode(s, policy).value;
    DecodedLength(u);
    forall j | 0 <= j < |r| ensures r[j] == Octet(UrlGroup(body, j / 3), j % 3) {
      BytesAreOctets(u, j);
      SameGroup(body, j / 3);
    }
  }

  lemma UrlDecodesChars(body: string, p: nat, policy: DecodePolicy, s: string)
    requires s == body + Pads(p) && (body == "" || body[|body| - 1] != '=') && Acceptable(body, p, policy)
    requires !Refused(s, policy)
    ensures UrlDecode(s, policy) == DecodeChars(Unsafe(body)) && |Unsafe(body)| == |body|
  {
    DecodedText(body, p, policy, s);
    var u, n := FewPads(body, p, policy, s);
    DecodeIsChars(u, n);
  }

  lemma FewPads(body: string, p: nat, policy: DecodePolicy, s: string) returns (u: string, n: nat)
    requires s == body + Pads(p) && (body == "" || body[|body| - 1] != '=') && Acceptable(body, p, policy) && !Refused(s, policy)
    ensures u == Unsafe(body) && |u| == |body| && n == p + Missing(|s|)
    ensures (u == "" ==> n == 0) && (u != "" ==> u[|u| - 1] != '=') && n <= 2 && (|u| + n) % 4 == 0
  {
    u, n := Unsafe(body), p + Missing(|s|);
    UnsafeEnd(body);
    PolicyArithmetic(body, p, policy, s);
    FilledUp(|body|, p);
  }

  function UrlDigitAt(s: string, k: nat): int {
    if k < |s| then UrlDigit(s[k]) else 0
  }

  function UrlGroup(s: string, g: nat): int {
    UrlDigitAt(s, 4 * g) * 262144 + UrlDigitAt(s, 4 * g + 1) * 4096 + UrlDigitAt(s, 4 * g + 2) * 64 + UrlDigitAt(s, 4 * g + 3)
  }

  lemma SameGroup(body: string, g: nat)
    ensures OutputGroup(Unsafe(body), g) == UrlGroup(body, g)
  {
    forall k: nat ensures DigitAt(Unsafe(body), k) == UrlDigitAt(body, k) {
      if k < |body| { SafeDigit(body, k); }
    }
  }

  lemma SafeDigit(body: string, k: nat)
    requires k < |body|
    ensures |Unsafe(body)| == |body| && Digit(Unsafe(body)[k]) == UrlDigit(body[k])
  {}
}
