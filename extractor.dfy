/** The `ETH_ADDRESS` pattern `0x[0-9a-fA-F]{40}` and its `find` on a bio.
    The pattern has a fixed length and no alternation, so a match is a
    window of 42 characters: a lower-case `0x` marker and 40 hex digits of
    either case. `find` reports the leftmost such window. There is no word
    boundary on either side. */
module Extractor {
  import opened Wrappers
  import opened Hex

  /** Hex digits after the marker. */
  const HexDigits: nat := 40
  /** Length of every match: the marker plus the digits. */
  const MatchLength: nat := 2 + HexDigits

  /** A match of the pattern starts at index `i` of `s`. */
  predicate IsAddrWindow(s: string, i: nat) {
    && i + MatchLength <= |s|
    && s[i] == '0' && s[i + 1] == 'x'
    && forall k :: i + 2 <= k < i + MatchLength ==> IsHexDigit(s[k])
  }

  /** A whole string that the pattern matches exactly. */
  predicate IsAddressText(m: string) {
    |m| == MatchLength && IsAddrWindow(m, 0)
  }

  /** No match of the pattern starts in `[lo, hi)`. */
  predicate NoWindowIn(s: string, lo: nat, hi: nat) {
    forall j :: lo <= j < hi ==> !IsAddrWindow(s, j)
  }

  /** The leftmost match starting at or after `start`. */
  function FindFrom(s: string, start: nat): (r: Option<nat>)
    requires start <= |s|
    decreases |s| - start
    ensures r.Some? ==> start <= r.value && IsAddrWindow(s, r.value) && NoWindowIn(s, start, r.value)
    ensures r.None? ==> NoWindowIn(s, start, |s|)
  {
    if start == |s| then None
    else if IsAddrWindow(s, start) then Some(start)
    else FindFrom(s, start + 1)
  }

  /** `ETH_ADDRESS.find(bio)`, as the start index of the match: the leftmost
      window, and absent exactly when no index starts a window. */
  function FindAddress(s: string): (r: Option<nat>)
    ensures r.None? <==> forall i: nat :: !IsAddrWindow(s, i)
    ensures r.Some? ==> IsAddrWindow(s, r.value) && NoWindowIn(s, 0, r.value)
  {
    var r := FindFrom(s, 0);
    assert r.None? ==> forall i: nat :: !IsAddrWindow(s, i) by {
      if r.None? {
        forall i: nat ensures !IsAddrWindow(s, i) {
          if i < |s| { assert !IsAddrWindow(s, i); }
        }
      }
    }
    r
  }

  /** `ETH_ADDRESS.find(bio).as_str()`: the text of the leftmost match.
      Every match is 42 characters, `0x` and 40 hex digits. */
  function FindMatch(s: string): (m: Option<string>)
    ensures m.Some? <==> FindAddress(s).Some?
    ensures m.Some? ==> IsAddressText(m.value)
    ensures m.Some? ==> m.value[..2] == "0x" && AllHex(m.value[2..])
    ensures m.Some? ==> m.value == s[FindAddress(s).value..FindAddress(s).value + MatchLength]
  {
    match FindAddress(s)
    case None => None
    case Some(i) =>
      var m := s[i..i + MatchLength];
      assert forall k :: 2 <= k < MatchLength ==> m[k] == s[i + k];
      Some(m)
  }

  /** The leftmost-window characterisation, both directions: `find` reports
      `i` exactly when a window starts at `i` and none starts earlier. */
  lemma FindAddressIsLeftmost(s: string, i: nat)
    ensures FindAddress(s) == Some(i) <==> IsAddrWindow(s, i) && NoWindowIn(s, 0, i)
  {
  }

  /** Extraction is stable: searching the match itself finds it at index 0. */
  lemma MatchIsStable(s: string)
    requires FindMatch(s).Some?
    ensures FindAddress(FindMatch(s).value) == Some(0)
    ensures FindMatch(FindMatch(s).value) == FindMatch(s)
  {
    var m := FindMatch(s).value;
    FindAddressIsLeftmost(m, 0);
    assert m[0..MatchLength] == m;
  }

  /** A bio whose prefix has no `x` at all has its first address as the
      match, whatever the prefix's last character and whatever follows the
      address, more hex digits included: there is no boundary check. */
  lemma AddressAfterPlainPrefix(p: string, a: string, t: string)
    requires 'x' !in p
    requires IsAddressText(a)
    ensures FindAddress(p + a + t) == Some(|p|)
    ensures FindMatch(p + a + t) == Some(a)
  {
    var s := p + a + t;
    assert s[|p|..|p| + MatchLength] == a;
    assert IsAddrWindow(s, |p|) by {
      forall k | |p| + 2 <= k < |p| + MatchLength ensures IsHexDigit(s[k]) {
        assert s[k] == a[k - |p|];
      }
    }
    forall j | 0 <= j < |p| ensures !IsAddrWindow(s, j) {
      if j + 1 < |p| {
        assert s[j + 1] == p[j + 1];
      } else {
        assert s[j + 1] == a[0] == '0';
      }
    }
    FindAddressIsLeftmost(s, |p|);
  }

  /** The `0x` marker is case-sensitive: a bio without a lower-case `x`
      (for instance one that writes `0X`) never yields a match. */
  lemma UpperMarkerNeverMatches(s: string)
    requires 'x' !in s
    ensures FindAddress(s) == None
    ensures FindMatch(s) == None
  {
  }

  /** Windows may overlap, and the leftmost one wins even when a complete
      address follows: `0x` and 39 digits glued to an address match as the
      first marker, the address's own `0` serving as the 40th digit. */
  lemma OverlappingEarlierWindowWins(d: string, a: string)
    requires |d| == HexDigits - 1 && AllHex(d)
    requires IsAddressText(a)
    ensures FindAddress("0x" + d + a) == Some(0)
    ensures FindMatch("0x" + d + a) == Some("0x" + d + "0")
  {
    var s := "0x" + d + a;
    assert s[MatchLength - 1] == a[0];
    assert IsAddrWindow(s, 0) by {
      forall k | 2 <= k < MatchLength ensures IsHexDigit(s[k]) {
        if k < MatchLength - 1 { assert s[k] == d[k - 2]; }
      }
    }
    FindAddressIsLeftmost(s, 0);
    assert s[0..MatchLength] == "0x" + d + "0";
  }
}
