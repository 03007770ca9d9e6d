/**
 * The `mailbox` view's three filters over the caller's own entries, and the
 * newest-first order of its result.
 */
module Mailboxes {
  import opened Wrappers
  import opened Models

  datatype Box = Inbox | Sent | Archive

  datatype MailboxError = InvalidMailbox   // "Invalid mailbox."

  /** The mailbox names the view accepts; any other name is refused. */
  function ParseBox(name: string): (b: Option<Box>)
    ensures b == Some(Inbox) <==> name == "inbox"
    ensures b == Some(Sent) <==> name == "sent"
    ensures b == Some(Archive) <==> name == "archive"
  {
    if name == "inbox" then Some(Inbox)
    else if name == "sent" then Some(Sent)
    else if name == "archive" then Some(Archive)
    else None
  }

  /**
   * The query filter: the entry belongs to the caller, and the caller
   * received it and it is not archived (inbox), sent it (sent, whatever its
   * archived flag), or received it and it is archived (archive).
   */
  predicate InBox(e: Email, caller: UserId, box: Box) {
    && e.owner == caller
    && match box
       case Inbox => caller in e.recipients && !e.archived
       case Sent => e.sender == caller
       case Archive => caller in e.recipients && e.archived
  }

  /** `a` is listed before `b`: it is newer, or as new and created earlier. */
  predicate Before(entries: map<EntryId, Email>, a: EntryId, b: EntryId)
    requires a in entries && b in entries
  {
    entries[a].timestamp > entries[b].timestamp
    || (entries[a].timestamp == entries[b].timestamp && a < b)
  }

  /** `order_by("-timestamp")`: every entry is listed before all that follow it. */
  predicate NewestFirst(entries: map<EntryId, Email>, s: seq<EntryId>) {
    && (forall i :: 0 <= i < |s| ==> s[i] in entries)
    && (forall i, j :: 0 <= i < j < |s| ==> Before(entries, s[i], s[j]))
  }

  /** Placing `x` into a newest-first list keeps it newest first and adds exactly `x`. */
  function Insert(entries: map<EntryId, Email>, x: EntryId, s: seq<EntryId>): (r: seq<EntryId>)
    requires x in entries && x !in s && NewestFirst(entries, s)
    ensures NewestFirst(entries, r)
    ensures |r| == |s| + 1
    ensures forall y {:trigger y in r} :: y in r <==> y == x || y in s
  {
    if s == [] then [x]
    else if Before(entries, x, s[0]) then [x] + s
    else
      var rest := Insert(entries, x, s[1..]);
      assert Before(entries, s[0], x);
      assert forall j :: 0 <= j < |rest| ==> Before(entries, s[0], rest[j]) by {
        forall j | 0 <= j < |rest| ensures Before(entries, s[0], rest[j]) {
          if rest[j] != x {
            assert rest[j] in rest;
            assert rest[j] in s[1..];
            var k :| 0 <= k < |s[1..]| && s[1..][k] == rest[j];
            assert s[k + 1] == rest[j];
          }
        }
      }
      [s[0]] + rest
  }

  /** The caller's entries with id below `n` that pass the filter, newest first. */
  function Collect(entries: map<EntryId, Email>, n: nat, caller: UserId, box: Box): (r: seq<EntryId>)
    ensures NewestFirst(entries, r)
    ensures forall k {:trigger k in r} :: k in r <==> k < n && k in entries && InBox(entries[k], caller, box)
  {
    if n == 0 then []
    else
      var rest := Collect(entries, n - 1, caller, box);
      var k := n - 1;
      if k in entries && InBox(entries[k], caller, box) then Insert(entries, k, rest) else rest
  }

  /**
   * The `mailbox` view's query: for a known mailbox name, exactly the
   * caller's entries that pass its filter, each once, newest first; for any
   * other name the invalid-mailbox error.
   */
  function Listing(entries: map<EntryId, Email>, bound: nat, caller: UserId, name: string)
    : (r: Result<seq<EntryId>, MailboxError>)
    requires forall k :: k in entries ==> k < bound
    ensures r.Failure? <==> ParseBox(name).None?
    ensures r.Failure? ==> r.error == InvalidMailbox
    ensures r.Success? ==> NewestFirst(entries, r.value) && NoDup(r.value)
    ensures r.Success? ==> forall k :: k in r.value <==> k in entries && InBox(entries[k], caller, ParseBox(name).value)
  {
    match ParseBox(name)
    case None => Failure(InvalidMailbox)
    case Some(box) => Success(Collect(entries, bound, caller, box))
  }

  /** Two stores that agree on the caller's own entries give the caller the same lists. */
  lemma {:induction false} CollectIsolated(e1: map<EntryId, Email>, e2: map<EntryId, Email>, n: nat, caller: UserId, box: Box)
    requires forall k :: k in e1 && e1[k].owner == caller ==> k in e2 && e2[k] == e1[k]
    requires forall k :: k in e2 && e2[k].owner == caller ==> k in e1 && e1[k] == e2[k]
    ensures Collect(e1, n, caller, box) == Collect(e2, n, caller, box)
  {
    if n > 0 {
      CollectIsolated(e1, e2, n - 1, caller, box);
      var rest := Collect(e1, n - 1, caller, box);
      assert rest == Collect(e2, n - 1, caller, box);
      var k := n - 1;
      var keep1 := k in e1 && InBox(e1[k], caller, box);
      var keep2 := k in e2 && InBox(e2[k], caller, box);
      assert keep1 == keep2;
      if keep1 {
        assert forall i :: 0 <= i < |rest| ==> e1[rest[i]] == e2[rest[i]] by {
          forall i | 0 <= i < |rest| ensures e1[rest[i]] == e2[rest[i]] {
            assert rest[i] in rest;
          }
        }
        InsertIsolated(e1, e2, k, rest);
      }
    }
  }

  lemma {:induction false} InsertIsolated(e1: map<EntryId, Email>, e2: map<EntryId, Email>, x: EntryId, s: seq<EntryId>)
    requires x in e1 && x in e2 && x !in s && NewestFirst(e1, s) && NewestFirst(e2, s)
    requires e1[x] == e2[x] && forall i :: 0 <= i < |s| ==> e1[s[i]] == e2[s[i]]
    ensures Insert(e1, x, s) == Insert(e2, x, s)
  {
    if s != [] && !Before(e1, x, s[0]) {
      InsertIsolated(e1, e2, x, s[1..]);
    }
  }

  /**
   * A mailbox list depends only on the entries its caller owns: changing or
   * deleting anyone else's copy leaves it as it was.
   */
  lemma ListingIsolated(e1: map<EntryId, Email>, e2: map<EntryId, Email>, bound: nat, caller: UserId, name: string)
    requires forall k :: k in e1 ==> k < bound
    requires forall k :: k in e2 ==> k < bound
    requires forall k :: k in e1 && e1[k].owner == caller ==> k in e2 && e2[k] == e1[k]
    requires forall k :: k in e2 && e2[k].owner == caller ==> k in e1 && e1[k] == e2[k]
    ensures Listing(e1, bound, caller, name) == Listing(e2, bound, caller, name)
  {
    if ParseBox(name).Some? {
      CollectIsolated(e1, e2, bound, caller, ParseBox(name).value);
    }
  }

  /** A received entry of the caller's is in exactly one of inbox and archive, as its flag says. */
  lemma ReceivedInInboxOrArchive(entries: map<EntryId, Email>, bound: nat, caller: UserId, k: EntryId)
    requires forall j :: j in entries ==> j < bound
    requires k in entries && entries[k].owner == caller && caller in entries[k].recipients
    ensures k in Listing(entries, bound, caller, "inbox").value <==> !entries[k].archived
    ensures k in Listing(entries, bound, caller, "archive").value <==> entries[k].archived
  {
  }

  /**
   * The inbox filter does not look at the sender: the copy a user keeps of a
   * message they also addressed to themselves is listed in both their inbox
   * and their sent mailbox.
   */
  lemma SelfAddressedInInboxAndSent(entries: map<EntryId, Email>, bound: nat, caller: UserId, k: EntryId)
    requires forall j :: j in entries ==> j < bound
    requires k in entries && entries[k].owner == caller && entries[k].sender == caller
    requires caller in entries[k].recipients && !entries[k].archived
    ensures k in Listing(entries, bound, caller, "inbox").value
    ensures k in Listing(entries, bound, caller, "sent").value
  {
  }
}
