/** app/services/fcm_service.rb: one batch push through the FCM client. The
    client and its transport are a parameter. */
module FcmService {
  import opened Wrappers
  import Seqs

  datatype Options = Options(title: string, body: string, data: map<string, string>)
  datatype Response = Response(statusCode: int, body: string)

  /** The one call made to the client: all tokens and the options. */
  datatype ClientCall = ClientCall(tokens: seq<string>, options: Options)

  /** What `send_notification` did: the client call, if any, and the
      response it returned. */
  datatype Dispatch = Dispatch(call: Option<ClientCall>, response: Response)

  const NoTokensResponse := Response(200, "No valid device tokens")

  /** `Array(tokens).map(&:to_s)`: every nil becomes "". */
  function Texts(xs: seq<Option<string>>): seq<string>
  {
    seq(|xs|, i requires 0 <= i < |xs| => xs[i].GetOr(""))
  }

  /** `Array(tokens).map(&:to_s).reject(&:empty?)`: nil becomes "" and every
      empty string is dropped; whitespace-only strings and repeats stay, in
      the order they were given. */
  function NonEmptyStrings(xs: seq<Option<string>>): (r: seq<string>)
    ensures "" !in r
    ensures forall t :: t != "" ==> multiset(r)[t] == multiset(xs)[Some(t)]
  {
    if xs == [] then []
    else
      var rest := NonEmptyStrings(xs[1..]);
      assert xs == [xs[0]] + xs[1..];
      var s := xs[0].GetOr("");
      if s == "" then rest else [s] + rest
  }

  /** The tokens kept are in the order they were given. */
  lemma {:induction false} NonEmptyStringsInOrder(xs: seq<Option<string>>)
    ensures Seqs.Subsequence(NonEmptyStrings(xs), Texts(xs))
  {
    if xs != [] {
      NonEmptyStringsInOrder(xs[1..]);
      var ts := Texts(xs);
      assert ts[0] == xs[0].GetOr("") && ts[1..] == Texts(xs[1..]);
    }
  }

  /** `send_notification(tokens, title, body, data)`. */
  function SendNotification(deviceTokens: seq<Option<string>>, title: string, body: string,
                            data: map<string, string>, client: ClientCall -> Response): (d: Dispatch)
    ensures d.call.None? <==> forall x :: x in deviceTokens ==> x.GetOr("") == ""
    ensures d.call.None? ==> d.response == NoTokensResponse
    ensures d.call.Some? ==>
      && d.call.value.tokens == NonEmptyStrings(deviceTokens)
      && d.call.value.options == Options(title, body, data)
      && d.response == client(d.call.value)
      && "" !in d.call.value.tokens
      && (forall t :: t != "" ==> multiset(d.call.value.tokens)[t] == multiset(deviceTokens)[Some(t)])
      && Seqs.Subsequence(d.call.value.tokens, Texts(deviceTokens))
  {
    var tokens := NonEmptyStrings(deviceTokens);
    if tokens == [] then
      assert forall x :: x in deviceTokens ==> x.GetOr("") == "";
      Dispatch(None, NoTokensResponse)
    else
      assert tokens[0] in tokens && multiset(tokens)[tokens[0]] > 0;
      assert multiset(deviceTokens)[Some(tokens[0])] > 0;
      assert Some(tokens[0]) in deviceTokens && Some(tokens[0]).GetOr("") != "";
      NonEmptyStringsInOrder(deviceTokens);
      var call := ClientCall(tokens, Options(title, body, data));
      Dispatch(Some(call), client(call))
  }

  /** A list of non-empty strings reaches the client unchanged. */
  lemma {:induction false} NonEmptyStringsKeepsPresent(ts: seq<string>)
    requires "" !in ts
    ensures NonEmptyStrings(seq(|ts|, i requires 0 <= i < |ts| => Some(ts[i]))) == ts
  {
    var xs := seq(|ts|, i requires 0 <= i < |ts| => Some(ts[i]));
    if ts != [] {
      assert xs[1..] == seq(|ts[1..]|, i requires 0 <= i < |ts[1..]| => Some(ts[1..][i]));
      NonEmptyStringsKeepsPresent(ts[1..]);
      assert [ts[0]] + ts[1..] == ts;
    }
  }
}
