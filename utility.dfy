/**
 * The string helpers of `Utility`: where the database file lives, and the decoding applied to the
 * meal name taken from a GET /meals/<string> URL.
 *
 * `UnescapePostData` first turns every '+' into a space, then repeatedly decodes the FIRST '%' of the
 * whole string: the two characters after it are read by `std::stoi("0x" + ..., nullptr, 16)` and the
 * three characters are replaced by the C string holding that byte. This is close to the percent-decoding
 * of section 2.1 of RFC 3986 combined with the '+' rule of application/x-www-form-urlencoded, but
 * decoded output is decoded again, a zero byte deletes the triplet, a malformed triplet is still consumed,
 * and when the first '%' of the string is among its last two characters (length three or more) the loop
 * spins forever.
 */
module Utility {
  import opened Common

  /**
   * `get_temporary_folder`, with the environment passed in: `temp` and `tmp` are the values of the
   * TEMP and TMP variables, None when unset (a variable set to the empty string still counts as set).
   */
  function TemporaryFolder(temp: Option<string>, tmp: Option<string>, filename: string): (path: string)
    ensures temp.Some? ==> path == temp.value + "/" + filename
    ensures temp.None? && tmp.Some? ==> path == tmp.value + "/" + filename
    ensures temp.None? && tmp.None? ==> path == "./" + filename
  {
    var folder := if temp.Some? then temp.value else if tmp.Some? then tmp.value else ".";
    folder + "/" + filename
  }

  /** `std::string::find` for one character: the first position holding `c`, None for `npos`. */
  function Find(s: string, c: char): (r: Option<nat>)
    ensures r.Some? ==> r.value < |s| && s[r.value] == c && c !in s[..r.value]
    ensures r.None? <==> c !in s
  {
    if s == [] then None
    else if s[0] == c then Some(0)
    else match Find(s[1..], c)
      case None => None
      case Some(i) => assert s[1..][..i] == s[1..i + 1]; Some(i + 1)
  }

  /** The '+' loop as a value: every '+' turned into a space, everything else kept. */
  function SpacesForPlus(s: string): (r: string)
    ensures |r| == |s| && '+' !in r
  {
    seq(|s|, i requires 0 <= i < |s| => if s[i] == '+' then ' ' else s[i])
  }

  predicate IsHexDigit(c: char)
  {
    '0' <= c <= '9' || 'a' <= c <= 'f' || 'A' <= c <= 'F'
  }

  function HexDigitValue(c: char): (v: nat)
    requires IsHexDigit(c)
    ensures v < 16
  {
    if '0' <= c <= '9' then c as nat - '0' as nat
    else if 'a' <= c <= 'f' then c as nat - 'a' as nat + 10
    else c as nat - 'A' as nat + 10
  }

  /**
   * `std::stoi("0x" + digits, nullptr, 16)` for the at most two characters after a '%': the longest run
   * of hex digits after the "0x" is read; with none, only the leading "0" is read, so the value is 0.
   */
  function HexPrefixValue(digits: string): (v: nat)
    requires |digits| <= 2
    ensures v < 256
  {
    if |digits| >= 1 && IsHexDigit(digits[0]) then
      if |digits| == 2 && IsHexDigit(digits[1]) then 16 * HexDigitValue(digits[0]) + HexDigitValue(digits[1])
      else HexDigitValue(digits[0])
    else 0
  }

  /** The largest `size_t`. */
  const SizeMax: nat := 0x1_0000_0000_0000_0000 - 1

  /** `data.length() - 3` in `size_t` arithmetic: it wraps around for strings shorter than three. */
  function LengthMinus3(n: nat): (r: nat)
    ensures n >= 3 ==> r == n - 3
    ensures n < 3 ==> n <= r <= SizeMax && (n - 3 - r) % (SizeMax + 1) == 0
  {
    if n >= 3 then n - 3 else SizeMax + 1 - (3 - n)
  }

  function Min(a: nat, b: nat): nat
  {
    if a <= b then a else b
  }

  /**
   * One decoding step at the '%' in position `pos`: `data.replace(pos, 3, {byte, '\0'})`. The count 3
   * is clamped to the end of the string, and a zero byte makes the replacement the empty C string.
   */
  function ReplacePercent(s: string, pos: nat): (r: string)
    requires pos < |s|
    ensures |r| < |s|
  {
    var end := Min(pos + 3, |s|);
    var code := HexPrefixValue(s[pos + 1..end]);
    var replacement := if code == 0 then "" else [code as char];
    s[..pos] + replacement + s[end..]
  }

  /** A two-hex-digit triplet "%XY" with a non-zero byte is replaced by that byte, shortening the string by two. */
  lemma TripletBecomesByte(s: string, pos: nat)
    requires pos + 2 < |s| && IsHexDigit(s[pos + 1]) && IsHexDigit(s[pos + 2])
    requires HexDigitValue(s[pos + 1]) * 16 + HexDigitValue(s[pos + 2]) != 0
    ensures var r := ReplacePercent(s, pos);
      && |r| == |s| - 2
      && r[..pos] == s[..pos]
      && r[pos] as nat == HexDigitValue(s[pos + 1]) * 16 + HexDigitValue(s[pos + 2])
      && r[pos + 1..] == s[pos + 3..]
  {
    assert s[pos + 1..pos + 3] == [s[pos + 1], s[pos + 2]];
  }

  /** Whether the '%' loop ends on `s`: it spins once the first '%' fails the position test. */
  predicate DecodeTerminates(s: string)
    decreases |s|
  {
    match Find(s, '%')
    case None => true
    case Some(pos) => pos <= LengthMinus3(|s|) && DecodeTerminates(ReplacePercent(s, pos))
  }

  /** What the '%' loop leaves behind when it ends. */
  function Decoded(s: string): (r: string)
    requires DecodeTerminates(s)
    ensures '%' !in r
    decreases |s|
  {
    match Find(s, '%')
    case None => s
    case Some(pos) => Decoded(ReplacePercent(s, pos))
  }

  /** The whole of `UnescapePostData` as a value. */
  function Unescaped(s: string): string
    requires DecodeTerminates(SpacesForPlus(s))
  {
    Decoded(SpacesForPlus(s))
  }

  /**
   * `UnescapePostData`. The source rewrites a `std::string&` in place; here the string goes in and its
   * final value comes out. Callers must not pass a string on which the '%' loop spins.
   */
  method UnescapePostData(data: string) returns (result: string)
    requires DecodeTerminates(SpacesForPlus(data))
    ensures '%' !in result
    ensures result == Unescaped(data)
  {
    result := ReplacePluses(data);
    result := DecodePercents(result);
  }

  /** The '+' loop of `UnescapePostData`: replace the first '+' by a space until none is left. */
  method ReplacePluses(data: string) returns (result: string)
    ensures result == SpacesForPlus(data)
  {
    result := data;
    var pos := Find(result, '+');
    while pos.Some?
      invariant |result| == |data|
      invariant SpacesForPlus(result) == SpacesForPlus(data)
      invariant pos == Find(result, '+')
      decreases multiset(result)['+']
    {
      result := result[pos.value := ' '];
      pos := Find(result, '+');
    }
    assert result == SpacesForPlus(result);
  }

  /** The '%' loop of `UnescapePostData`: decode at the first '%' until none is left. */
  method DecodePercents(data: string) returns (result: string)
    requires DecodeTerminates(data)
    ensures result == Decoded(data)
  {
    result := data;
    var pos := Find(result, '%');
    while pos.Some?
      invariant DecodeTerminates(result)
      invariant Decoded(result) == Decoded(data)
      invariant pos == Find(result, '%')
      decreases |result|
    {
      var p := pos.value;
      if p <= LengthMinus3(|result|) {
        var end := Min(p + 3, |result|);
        var code := HexPrefixValue(result[p + 1..end]);
        var replacement := if code == 0 then "" else [code as char];
        result := result[..p] + replacement + result[end..];
      }
      pos := Find(result, '%');
    }
  }

  lemma {:induction false} ShortStringsTerminate(s: string)
    requires |s| < 3
    ensures DecodeTerminates(s)
    decreases |s|
  {
    match Find(s, '%')
    case None =>
    case Some(pos) =>
      ShortStringsTerminate(ReplacePercent(s, pos));
  }

  /** `Find` returns the position of the first occurrence. */
  lemma {:induction false} FindFirst(s: string, c: char, pos: nat)
    requires pos < |s| && s[pos] == c && c !in s[..pos]
    ensures Find(s, c) == Some(pos)
  {
    if pos > 0 {
      assert s[0] == s[..pos][0];
      assert s[1..][..pos - 1] == s[..pos][1..];
      FindFirst(s[1..], c, pos - 1);
    }
  }

  /** A '%' in the last two places of a string of length three or more, with no '%' before it, spins forever. */
  lemma LatePercentSpins(s: string, pos: nat)
    requires |s| >= 3 && |s| - 3 < pos < |s| && s[pos] == '%' && '%' !in s[..pos]
    ensures !DecodeTerminates(s)
  {
    FindFirst(s, '%', pos);
  }

  /** "%2B" decodes to a '+' that stays a '+': the '+' loop has already finished. */
  lemma EncodedPlusSurvives()
    ensures DecodeTerminates(SpacesForPlus("%2B")) && Unescaped("%2B") == "+"
  {
    assert SpacesForPlus("%2B") == "%2B";
    assert Find("%2B", '%') == Some(0);
    assert ReplacePercent("%2B", 0) == "+";
    assert Find("+", '%') == None;
  }

  /** "%2541" is decoded twice: "%25" yields a '%', which then decodes "%41" to 'A'. */
  lemma DecodedOutputIsDecodedAgain()
    ensures DecodeTerminates("%2541") && Decoded("%2541") == "A"
  {
    assert Find("%2541", '%') == Some(0);
    assert ReplacePercent("%2541", 0) == "%41";
    assert Find("%41", '%') == Some(0);
    assert ReplacePercent("%41", 0) == "A";
    assert Find("A", '%') == None;
  }

  /** "%00" decodes to the zero byte, which as a C string is empty: the triplet is deleted. */
  lemma ZeroByteDeletes()
    ensures DecodeTerminates("a%00b") && Decoded("a%00b") == "ab"
  {
    assert Find("a%00b", '%') == Some(1) by { assert "a%00b"[..1] == "a"; }
    assert ReplacePercent("a%00b", 1) == "ab";
    assert Find("ab", '%') == None;
  }

  /**
   * A triplet whose two characters read as 0 is deleted: "%00", and equally a malformed triplet such as
   * "%ZZ", since `stoi` of "0xZZ" in base 16 reads only the leading "0".
   */
  lemma ZeroByteTripletDeleted(s: string, pos: nat)
    requires pos + 2 < |s| && s[pos] == '%' && HexPrefixValue(s[pos + 1..pos + 3]) == 0
    ensures ReplacePercent(s, pos) == s[..pos] + s[pos + 3..]
  {
  }

  /** A malformed triplet is consumed rather than kept: "%ZZb" decodes to "b". */
  lemma MalformedTripletConsumed()
    ensures DecodeTerminates("%ZZb") && Decoded("%ZZb") == "b"
  {
    assert Find("%ZZb", '%') == Some(0);
    assert HexPrefixValue("ZZ") == 0;
    assert ReplacePercent("%ZZb", 0) == "b";
    assert Find("b", '%') == None;
  }

  /** Reference decoding: section 2.1 of RFC 3986, one pass, malformed '%' kept as it is. */
  function PercentDecode(s: string): string
    decreases |s|
  {
    if s == [] then []
    else if |s| >= 3 && s[0] == '%' && IsHexDigit(s[1]) && IsHexDigit(s[2]) then
      [(16 * HexDigitValue(s[1]) + HexDigitValue(s[2])) as char] + PercentDecode(s[3..])
    else [s[0]] + PercentDecode(s[1..])
  }

  /** Every '%' begins a two-hex-digit triplet whose byte is neither zero nor '%'. */
  predicate CleanlyEncoded(s: string)
    decreases |s|
  {
    if s == [] then true
    else if s[0] == '%' then
      && |s| >= 3 && IsHexDigit(s[1]) && IsHexDigit(s[2])
      && 16 * HexDigitValue(s[1]) + HexDigitValue(s[2]) !in {0, 0x25}
      && CleanlyEncoded(s[3..])
    else CleanlyEncoded(s[1..])
  }

  lemma FindAfterPlain(p: string, v: string)
    requires '%' !in p
    ensures v != [] && v[0] == '%' ==> Find(p + v, '%') == Some(|p|)
    ensures '%' !in v ==> Find(p + v, '%') == None
  {
    var s := p + v;
    if v != [] && v[0] == '%' {
      assert s[..|p|] == p;
      FindFirst(s, '%', |p|);
    }
    if '%' !in v {
      assert forall i :: 0 <= i < |s| ==> s[i] == if i < |p| then p[i] else v[i - |p|];
    }
  }

  /** The step that decodes a clean triplet right after a '%'-free prefix. */
  lemma CleanTripletStep(p: string, v: string)
    requires '%' !in p && |v| >= 3 && v[0] == '%' && IsHexDigit(v[1]) && IsHexDigit(v[2])
    requires 16 * HexDigitValue(v[1]) + HexDigitValue(v[2]) != 0
    ensures ReplacePercent(p + v, |p|)
      == (p + [(16 * HexDigitValue(v[1]) + HexDigitValue(v[2])) as char]) + v[3..]
  {
    var s := p + v;
    assert s[|p| + 1..|p| + 3] == [v[1], v[2]];
    assert s[..|p|] == p && s[|p| + 3..] == v[3..];
  }

  /** Decoding a clean triplet behind a '%'-free prefix is one step of the loop. */
  lemma DecodeThroughTriplet(p: string, v: string)
    requires '%' !in p && |v| >= 3 && v[0] == '%' && IsHexDigit(v[1]) && IsHexDigit(v[2])
    requires 16 * HexDigitValue(v[1]) + HexDigitValue(v[2]) != 0
    requires DecodeTerminates((p + [(16 * HexDigitValue(v[1]) + HexDigitValue(v[2])) as char]) + v[3..])
    ensures DecodeTerminates(p + v)
    ensures Decoded(p + v) == Decoded((p + [(16 * HexDigitValue(v[1]) + HexDigitValue(v[2])) as char]) + v[3..])
  {
    FindAfterPlain(p, v);
    CleanTripletStep(p, v);
    assert LengthMinus3(|p + v|) == |p + v| - 3;
  }

  lemma Regroup(p: string, v: string, k: nat)
    requires k <= |v|
    ensures (p + v[..k]) + v[k..] == p + v
  {
    assert v[..k] + v[k..] == v;
  }

  lemma Reassociate(p: string, c: char, w: string)
    ensures (p + [c]) + w == p + ([c] + w)
  {
  }

  /** What the loop does to a plain first character behind a '%'-free prefix: it keeps it. */
  lemma DecodePastPlain(p: string, v: string)
    requires '%' !in p && v != [] && v[0] != '%'
    requires DecodeTerminates((p + [v[0]]) + v[1..])
    requires Decoded((p + [v[0]]) + v[1..]) == (p + [v[0]]) + PercentDecode(v[1..])
    ensures DecodeTerminates(p + v) && Decoded(p + v) == p + PercentDecode(v)
  {
    Regroup(p, v, 1);
    assert v[..1] == [v[0]];
    assert PercentDecode(v) == [v[0]] + PercentDecode(v[1..]);
    Reassociate(p, v[0], PercentDecode(v[1..]));
  }

  /** What the loop does to a clean triplet behind a '%'-free prefix: it decodes it as RFC 3986 does. */
  lemma DecodePastTriplet(p: string, v: string, c: char)
    requires '%' !in p && |v| >= 3 && v[0] == '%' && IsHexDigit(v[1]) && IsHexDigit(v[2])
    requires c == (16 * HexDigitValue(v[1]) + HexDigitValue(v[2])) as char && c as int != 0
    requires DecodeTerminates((p + [c]) + v[3..])
    requires Decoded((p + [c]) + v[3..]) == (p + [c]) + PercentDecode(v[3..])
    ensures DecodeTerminates(p + v) && Decoded(p + v) == p + PercentDecode(v)
  {
    DecodeThroughTriplet(p, v);
    assert PercentDecode(v) == [c] + PercentDecode(v[3..]);
    Reassociate(p, c, PercentDecode(v[3..]));
  }

  /** Behind a '%'-free prefix, the loop decodes a cleanly encoded rest exactly as RFC 3986 does. */
  lemma {:induction false} CleanSuffixDecodes(p: string, v: string)
    requires '%' !in p && CleanlyEncoded(v)
    ensures DecodeTerminates(p + v) && Decoded(p + v) == p + PercentDecode(v)
    decreases |v|
  {
    if v == [] {
      FindAfterPlain(p, v);
      assert p + v == p;
    } else if v[0] != '%' {
      CleanSuffixDecodes(p + [v[0]], v[1..]);
      DecodePastPlain(p, v);
    } else {
      var c := (16 * HexDigitValue(v[1]) + HexDigitValue(v[2])) as char;
      CleanSuffixDecodes(p + [c], v[3..]);
      DecodePastTriplet(p, v, c);
    }
  }

  lemma {:induction false} CleanSurvivesSpaces(s: string)
    requires CleanlyEncoded(s)
    ensures CleanlyEncoded(SpacesForPlus(s))
    decreases |s|
  {
    if s != [] {
      var k := if s[0] == '%' then 3 else 1;
      CleanSurvivesSpaces(s[k..]);
      assert SpacesForPlus(s)[k..] == SpacesForPlus(s[k..]);
    }
  }

  /**
   * On input in which every '%' starts a clean triplet, `UnescapePostData` is exactly
   * application/x-www-form-urlencoded decoding: '+' to space, then RFC 3986 percent-decoding.
   */
  lemma CleanInputMatchesFormDecoding(s: string)
    requires CleanlyEncoded(s)
    ensures DecodeTerminates(SpacesForPlus(s))
    ensures Unescaped(s) == PercentDecode(SpacesForPlus(s))
  {
    CleanSurvivesSpaces(s);
    CleanSuffixDecodes([], SpacesForPlus(s));
    assert [] + SpacesForPlus(s) == SpacesForPlus(s);
  }

  /** Where the two part ways: RFC 3986 keeps the decoded "%41" of "%2541", the loop decodes it again. */
  lemma DoubleDecodingDiffersFromRfc()
    ensures PercentDecode("%2541") == "%41"
    ensures DecodeTerminates("%2541") && Decoded("%2541") != PercentDecode("%2541")
  {
    DecodedOutputIsDecodedAgain();
    assert "%2541"[3..] == "41";
    assert PercentDecode("41") == "41" by {
      assert "41"[1..] == "1";
      assert PercentDecode("1") == "1";
    }
  }
}
