/**
 * The pure decisions of the `compose` view: which addresses the recipient
 * field names, which users they resolve to, and who receives a copy.
 */
module Compose {
  import opened Wrappers
  import opened Text
  import opened Models

  datatype ComposeError =
    | NoRecipients                      // "At least one recipient required."
    | UnknownRecipient(address: string) // "User with email ... does not exist."

  /**
   * Looking the tokens up one after the other in the address index: either
   * every token names a user, and the result lists those users in token
   * order, or the first token that names no user is reported.
   */
  function Resolve(index: map<string, UserId>, tokens: seq<string>): (r: Result<seq<UserId>, ComposeError>)
    ensures r.Success? <==> forall i :: 0 <= i < |tokens| ==> tokens[i] in index
    ensures r.Success? ==> |r.value| == |tokens|
                           && forall i :: 0 <= i < |tokens| ==> tokens[i] in index && r.value[i] == index[tokens[i]]
    ensures r.Failure? ==> exists i :: 0 <= i < |tokens| && tokens[i] !in index
                                       && (forall j :: 0 <= j < i ==> tokens[j] in index)
                                       && r.error == UnknownRecipient(tokens[i])
  {
    if tokens == [] then Success([])
    else
      var init := tokens[..|tokens| - 1];
      var last := tokens[|tokens| - 1];
      var prefix := Resolve(index, init);
      assert forall i :: 0 <= i < |init| ==> init[i] == tokens[i];
      if prefix.Failure? then prefix
      else if last !in index then Failure(UnknownRecipient(last))
      else Success(prefix.value + [index[last]])
  }

  /** The error names the first token that resolves to no user. */
  lemma FirstUnknownReported(index: map<string, UserId>, tokens: seq<string>, k: nat)
    requires k < |tokens| && tokens[k] !in index
    requires forall j :: 0 <= j < k ==> tokens[j] in index
    ensures Resolve(index, tokens) == Failure(UnknownRecipient(tokens[k]))
  {
    var r := Resolve(index, tokens);
    var i :| 0 <= i < |tokens| && tokens[i] !in index
             && (forall j :: 0 <= j < i ==> tokens[j] in index)
             && r.error == UnknownRecipient(tokens[i]);
    assert i == k;
  }

  /**
   * The outcome of the checks `compose` makes before writing anything: the
   * single empty token is refused first, then every token must resolve.
   */
  function Addressees(index: map<string, UserId>, text: string): (r: Result<seq<UserId>, ComposeError>)
    ensures r == Failure(NoRecipients) <==> Blank(text)
    ensures !Blank(text) ==> r == Resolve(index, Tokens(text))
  {
    SingleEmptyTokenIffBlank(text);
    var tokens := Tokens(text);
    if tokens == [""] then Failure(NoRecipients) else Resolve(index, tokens)
  }

  /**
   * A recipient field such as `"a@x, "` does not count as empty: its second
   * token is the empty address, which no user has, so the request ends in
   * the unknown-user error for it, even though the first address is known.
   */
  lemma TrailingCommaIsUnknownRecipient(index: map<string, UserId>, address: string)
    requires address in index && "" !in index
    requires ',' !in address && Strip(address) == address
    ensures Addressees(index, address + ", ") == Failure(UnknownRecipient(""))
  {
    TrailingCommaTokens(address);
    FirstUnknownReported(index, [address, ""], 1);
  }

  /** When no user has the empty address, any blank token among several makes compose fail. */
  lemma BlankTokenFails(index: map<string, UserId>, text: string, k: nat)
    requires "" !in index && k < |Tokens(text)| && Tokens(text)[k] == "" && |Tokens(text)| > 1
    ensures Addressees(index, text).Failure?
    ensures Addressees(index, text).error.UnknownRecipient?
  {
    SingleEmptyTokenIffBlank(text);
  }

  /**
   * The many-to-many `add` loop: linking users one after the other keeps the
   * first link of each user and ignores repeats.
   */
  function Dedup(s: seq<UserId>): (r: seq<UserId>)
    ensures NoDup(r)
    ensures forall x :: x in r <==> x in s
    ensures |r| <= |s|
  {
    if s == [] then []
    else
      var rest := Dedup(s[..|s| - 1]);
      var last := s[|s| - 1];
      assert s == s[..|s| - 1] + [last];
      if last in rest then rest else rest + [last]
  }

  /** The users listed in `s`, as a set. */
  function Elements(s: seq<UserId>): set<UserId> {
    set u | u in s
  }

  /** The `users` set of `compose`: the sender together with every resolved recipient. */
  function Participants(sender: UserId, recipients: seq<UserId>): (p: set<UserId>)
    ensures sender in p
    ensures forall u :: u in p <==> u == sender || u in recipients
  {
    {sender} + Elements(recipients)
  }

  /**
   * One copy per distinct participant: the sender's own copy is counted
   * once even when the sender is listed as a recipient, and a repeated
   * recipient is counted once.
   */
  lemma ParticipantCount(sender: UserId, recipients: seq<UserId>)
    ensures |Participants(sender, recipients)| == |Dedup(recipients)| + (if sender in recipients then 0 else 1)
  {
    var d := Dedup(recipients);
    DistinctCount(d);
    assert Elements(recipients) == Elements(d) by {
      forall u ensures u in Elements(recipients) <==> u in Elements(d) {
        assert u in recipients <==> u in d;
      }
    }
    if sender in recipients {
      assert Participants(sender, recipients) == Elements(d);
    } else {
      assert Participants(sender, recipients) == Elements(d) + {sender};
      assert sender !in Elements(d);
    }
  }

  lemma {:induction false} DistinctCount(s: seq<UserId>)
    requires NoDup(s)
    ensures |Elements(s)| == |s|
  {
    if s != [] {
      var rest := s[1..];
      assert NoDup(rest) by {
        forall i, j | 0 <= i < j < |rest| ensures rest[i] != rest[j] {
          assert rest[i] == s[i + 1];
        }
      }
      assert s[0] !in rest;
      DistinctCount(rest);
      assert Elements(s) == Elements(rest) + {s[0]};
      assert s[0] !in Elements(rest);
    }
  }
}
