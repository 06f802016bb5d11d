/** `get_user_uid_and_address`: fetch the profile, take its numeric id,
    find the first address in its bio and parse it. Every failure along the
    way (transport, empty collection, no match, parse) becomes `None`. */
module Bot {
  import opened Wrappers
  import opened Hex
  import opened EthAddress
  import opened Extractor
  import opened Duolingo

  /** Every text the pattern matches is accepted by the address parse, so
      the parse step never turns a found match into `None`. */
  lemma MatchParses(m: string)
    requires IsAddressText(m)
    ensures Parse(m).Some?
    ensures Format(Parse(m).value) == "0x" + Lower(m[2..])
  {
  }

  /** The result is `Some` exactly when the fetch succeeded with a non-empty
      collection whose last profile has an address in its bio; the uid is
      that profile's `id`, and the address is the bio's first match (its
      canonical text is the match in lower case). */
  function GetUserUidAndAddress(response: Result<seq<UserResponse>, string>): (r: Option<(U64, Address)>)
    ensures response.Failure? ==> r.None?
    ensures r.Some? <==>
      response.Success? && response.value != [] &&
      FindMatch(response.value[|response.value| - 1].bio).Some?
    ensures r.Some? ==>
      var user := response.value[|response.value| - 1];
      var m := FindMatch(user.bio).value;
      r.value.0 == user.id && Format(r.value.1) == "0x" + Lower(m[2..])
  {
    var user :- GetUserFromApi(response).ToOption();
    var uid := user.id;
    var addressMatch :- FindMatch(user.bio);
    MatchParses(addressMatch);
    match Parse(addressMatch)
    case Some(address) => Some((uid, address))
  }

  /** With no window anywhere in the fetched bio the result is `None`. */
  lemma NoWindowNoAddress(earlier: seq<UserResponse>, user: UserResponse)
    requires forall i: nat :: !IsAddrWindow(user.bio, i)
    ensures GetUserUidAndAddress(Success(earlier + [user])) == None
  {
  }

  /** A failed fetch gives `None` whatever bio the profile would have had. */
  lemma FetchFailureGivesNone(error: string)
    ensures GetUserUidAndAddress(Failure(error)) == None
  {
  }

  /** Only the chosen profile's `id` and `bio` matter: `username`, `name`,
      `streak`, `courses` and every earlier profile in the collection leave
      the result unchanged. */
  lemma OnlyIdAndBioMatter(users: seq<UserResponse>, others: seq<UserResponse>)
    requires users != [] && others != []
    requires users[|users| - 1].id == others[|others| - 1].id
    requires users[|users| - 1].bio == others[|others| - 1].bio
    ensures GetUserUidAndAddress(Success(users)) == GetUserUidAndAddress(Success(others))
  {
  }

  /** A bio written as some text without `x` followed by an address's
      canonical form yields exactly that address and the profile's id. */
  lemma LinkedBioRoundTrip(user: UserResponse, prefix: string, a: Address, suffix: string)
    requires 'x' !in prefix
    requires user.bio == prefix + Format(a) + suffix
    ensures GetUserUidAndAddress(Success([user])) == Some((user.id, a))
  {
    var t := Format(a);
    assert IsAddressText(t) by {
      forall k | 2 <= k < MatchLength ensures IsHexDigit(t[k]) {
        assert t[k] == t[2..][k - 2];
      }
    }
    AddressAfterPlainPrefix(prefix, t, suffix);
    LowerOfLower(t[2..]);
    var r := GetUserUidAndAddress(Success([user]));
    ParseFormat(r.value.1);
    ParseFormat(a);
  }

  /** The address text of the worked profile below: forty `1` digits. */
  const OnesText: string := "0x" + seq(40, k => '1')

  lemma OnesTextParses()
    ensures IsAddressText(OnesText)
    ensures Parse(OnesText) == Some(seq(20, k => 0x11))
  {
    var m := OnesText;
    assert IsAddressText(m) by {
      forall k | 2 <= k < MatchLength ensures IsHexDigit(m[k]) {
        assert m[k] == '1';
      }
    }
    MatchParses(m);
    var d := Digits(m);
    assert d == seq(40, k => '1');
    var a := Decode(d);
    assert a == seq(20, k => 0x11) by {
      forall k | 0 <= k < 20 ensures a[k] == 0x11 {
        assert d[2 * k] == '1' && d[2 * k + 1] == '1';
      }
    }
  }

  /** A worked profile: id 42 whose bio reads `hi 0x111…1` resolves to uid
      42 and the address whose twenty bytes are all `0x11`. */
  lemma WorkedProfile(user: UserResponse)
    requires user.id == 42
    requires user.bio == "hi " + OnesText
    ensures GetUserUidAndAddress(Success([user])) == Some((42, seq(20, k => 0x11)))
  {
    assert user.bio == "hi " + OnesText + "";
    OnesTextParses();
    AddressAfterPlainPrefix("hi ", OnesText, "");
  }
}
