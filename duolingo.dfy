/** The learning platform's user lookup response and the choice of one
    profile from it. The HTTP request and the JSON decoding are outside the
    model: their outcome is an input, either the decoded `users` vector or
    the error message that `?` propagates. */
module Duolingo {
  import opened Wrappers

  type U32 = x: int | 0 <= x < 0x1_0000_0000
  type U64 = x: int | 0 <= x < 0x1_0000_0000_0000_0000

  datatype CourseResponse = CourseResponse(
    title: string,
    learningLanguage: string,
    xp: U64,
    fromLanguage: string,
    id: string)

  datatype UserResponse = UserResponse(
    streak: U32,
    id: U64,
    username: string,
    bio: string,
    name: string,
    courses: seq<CourseResponse>)

  const UserNotFound: string := "User not found"

  /** `Vec::pop`: removes and returns the last element, or nothing from an
      empty vector. */
  function Pop<T>(v: seq<T>): (r: (Option<T>, seq<T>))
    ensures r.0.None? <==> v == []
    ensures r.0.None? ==> r.1 == v
    ensures r.0.Some? ==> r.1 + [r.0.value] == v
  {
    if v == [] then (None, v) else (Some(v[|v| - 1]), v[..|v| - 1])
  }

  /** Popping undoes a push. */
  lemma PopPush<T>(v: seq<T>, x: T)
    ensures Pop(v + [x]) == (Some(x), v)
  {
  }

  /** The selection in `get_user_from_duolingo_api`: an empty collection is
      the "User not found" error, otherwise the profile chosen is the last
      one in the collection. */
  function SelectUser(users: seq<UserResponse>): (r: Result<UserResponse, string>)
    ensures r.Failure? <==> users == []
    ensures r.Failure? ==> r.error == UserNotFound
    ensures r.Success? ==> r.value in users && users[|users| - 1] == r.value
  {
    match Pop(users).0
    case Some(user) => Success(user)
    case None => Failure(UserNotFound)
  }

  /** The last element is chosen, not the first: when the collection holds
      two different profiles, the first one is never the result. */
  lemma SelectUserTakesLast(first: UserResponse, rest: seq<UserResponse>, last: UserResponse)
    requires first != last
    ensures SelectUser([first] + rest + [last]) == Success(last)
    ensures SelectUser([first] + rest + [last]) != Success(first)
  {
  }

  /** `get_user_from_duolingo_api` with the transport outcome as input: a
      request or decoding error propagates unchanged, and a decoded
      collection goes through the selection. */
  function GetUserFromApi(response: Result<seq<UserResponse>, string>): (r: Result<UserResponse, string>)
    ensures response.Failure? ==> r == Failure(response.error)
    ensures response.Success? && response.value == [] ==> r == Failure(UserNotFound)
    ensures r.Success? <==> response.Success? && response.value != []
    ensures r.Success? ==> r.value == response.value[|response.value| - 1]
  {
    var users :- response;
    SelectUser(users)
  }
}
