/**
 * The database behind the JSON API together with the views that use it:
 * `compose`, `mailbox`, `email` (GET, PUT, DELETE), `register`, and the
 * deletion rules of the `Email` foreign keys. The signed-in user is passed
 * explicitly as `caller` or `sender`.
 */
module Store {
  import opened Wrappers
  import opened Text
  import opened Models
  import opened Compose
  import opened Mailboxes
  import opened Registration

  datatype NotFound = EmailNotFound     // "Email not found."

  datatype DeleteError = ProtectedSender

  /**
   * The PUT handler's change to one entry: a flag takes the supplied value
   * when the request has one and is otherwise left as it was; no other
   * field changes, the timestamp included.
   */
  function ApplyFlags(e: Email, read: Option<bool>, archived: Option<bool>): (r: Email)
    ensures r.read == (if read.Some? then read.value else e.read)
    ensures r.archived == (if archived.Some? then archived.value else e.archived)
    ensures r.owner == e.owner && r.sender == e.sender && r.recipients == e.recipients
    ensures r.subject == e.subject && r.body == e.body && r.timestamp == e.timestamp
  {
    e.(read := read.GetOr(e.read), archived := archived.GetOr(e.archived))
  }

  /** Omitting both flags changes nothing, and sending the same request twice has the effect of sending it once. */
  lemma ApplyFlagsIdempotent(e: Email, read: Option<bool>, archived: Option<bool>)
    ensures ApplyFlags(e, None, None) == e
    ensures ApplyFlags(ApplyFlags(e, read, archived), read, archived) == ApplyFlags(e, read, archived)
  {
  }

  /** Deleting one participant's copy leaves every other user's mailboxes as they were. */
  lemma DeleteKeepsOtherMailboxes(entries: map<EntryId, Email>, bound: nat, id: EntryId, other: UserId, name: string)
    requires forall k :: k in entries ==> k < bound
    requires id in entries && entries[id].owner != other
    ensures Listing(entries - {id}, bound, other, name) == Listing(entries, bound, other, name)
  {
    ListingIsolated(entries - {id}, entries, bound, other, name);
  }

  /** Marking one copy read or archived leaves every other user's mailboxes as they were. */
  lemma UpdateKeepsOtherMailboxes(entries: map<EntryId, Email>, bound: nat, id: EntryId, read: Option<bool>,
                                  archived: Option<bool>, other: UserId, name: string)
    requires forall k :: k in entries ==> k < bound
    requires id in entries && entries[id].owner != other
    ensures Listing(entries[id := ApplyFlags(entries[id], read, archived)], bound, other, name)
            == Listing(entries, bound, other, name)
  {
    ListingIsolated(entries[id := ApplyFlags(entries[id], read, archived)], entries, bound, other, name);
  }

  /** Archiving a received copy moves it from the inbox to the archive of its owner. */
  lemma ArchivingMovesToArchive(entries: map<EntryId, Email>, bound: nat, id: EntryId)
    requires forall k :: k in entries ==> k < bound
    requires id in entries && entries[id].owner in entries[id].recipients
    ensures var after := entries[id := ApplyFlags(entries[id], None, Some(true))];
            && id in Listing(after, bound, entries[id].owner, "archive").value
            && id !in Listing(after, bound, entries[id].owner, "inbox").value
  {
  }

  /**
   * The copy `compose` creates for `owner`: sent by `sender` to `recipients`,
   * stamped `now`, read exactly when it is the sender's own, not archived.
   */
  function CopyFor(owner: UserId, sender: UserId, recipients: seq<UserId>, subject: string, body: string, now: nat)
    : (e: Email)
    ensures e.owner == owner && e.sender == sender && e.recipients == recipients
    ensures e.subject == subject && e.body == body && e.timestamp == now
    ensures e.read <==> owner == sender
    ensures !e.archived
  {
    NewEmail(owner, sender, recipients, subject, body, now, Some(owner == sender), None)
  }

  /**
   * `table` is `base` plus one copy under each id in `[start, stop)`, for
   * distinct owners that make up `owners`.
   */
  ghost predicate Copies(table: map<EntryId, Email>, base: map<EntryId, Email>, start: nat, stop: nat,
                         owners: set<UserId>, sender: UserId, recipients: seq<UserId>, subject: string,
                         body: string, now: nat)
  {
    && (forall k :: k in table <==> k in base || start <= k < stop)
    && (forall k :: k in base ==> table[k] == base[k])
    && (forall k :: start <= k < stop ==>
          table[k].owner in owners && table[k] == CopyFor(table[k].owner, sender, recipients, subject, body, now))
    && (forall k, l :: start <= k < l < stop ==> table[k].owner != table[l].owner)
    && (forall p :: p in owners ==> exists k :: start <= k < stop && table[k].owner == p)
  }

  /** Adding the copy of one more owner under the next id. */
  lemma CopiesStep(table: map<EntryId, Email>, next: map<EntryId, Email>, base: map<EntryId, Email>,
                   start: nat, stop: nat, owners: set<UserId>, sender: UserId, recipients: seq<UserId>,
                   subject: string, body: string, now: nat, u: UserId)
    requires Copies(table, base, start, stop, owners, sender, recipients, subject, body, now)
    requires u !in owners && start <= stop && forall k :: k in base ==> k < start
    requires next == table[stop := CopyFor(u, sender, recipients, subject, body, now)]
    ensures Copies(next, base, start, stop + 1, owners + {u}, sender, recipients, subject, body, now)
  {
    var copy := CopyFor(u, sender, recipients, subject, body, now);
    assert forall k :: k in next <==> k in base || start <= k < stop + 1;
    forall k | k in base ensures next[k] == base[k] {
      assert k != stop;
    }
    CopyStep(table, next, start, stop, owners, sender, recipients, subject, body, now, u);
    DistinctStep(table, next, start, stop, owners, copy);
    CoverStep(table, next, start, stop, owners, copy);
  }

  lemma CopyStep(table: map<EntryId, Email>, next: map<EntryId, Email>, start: nat, stop: nat,
                 owners: set<UserId>, sender: UserId, recipients: seq<UserId>, subject: string,
                 body: string, now: nat, u: UserId)
    requires next == table[stop := CopyFor(u, sender, recipients, subject, body, now)]
    requires forall k :: start <= k < stop ==>
               k in table && table[k].owner in owners
               && table[k] == CopyFor(table[k].owner, sender, recipients, subject, body, now)
    ensures forall k :: start <= k < stop + 1 ==>
              k in next && next[k].owner in owners + {u}
              && next[k] == CopyFor(next[k].owner, sender, recipients, subject, body, now)
  {
    forall k | start <= k < stop + 1
      ensures k in next && next[k].owner in owners + {u}
      ensures next[k] == CopyFor(next[k].owner, sender, recipients, subject, body, now)
    {
      if k < stop {
        assert next[k] == table[k];
      }
    }
  }

  lemma DistinctStep(table: map<EntryId, Email>, next: map<EntryId, Email>, start: nat, stop: nat,
                     owners: set<UserId>, copy: Email)
    requires next == table[stop := copy] && copy.owner !in owners
    requires forall k :: start <= k < stop ==> k in table && table[k].owner in owners
    requires forall k, l :: start <= k < l < stop ==> table[k].owner != table[l].owner
    ensures forall k, l :: start <= k < l < stop + 1 ==> k in next && l in next && next[k].owner != next[l].owner
  {
    forall k, l | start <= k < l < stop + 1 ensures k in next && l in next && next[k].owner != next[l].owner {
      if l == stop {
        assert next[k] == table[k] && table[k].owner in owners;
      } else {
        assert next[k] == table[k] && next[l] == table[l];
      }
    }
  }

  lemma CoverStep(table: map<EntryId, Email>, next: map<EntryId, Email>, start: nat, stop: nat,
                  owners: set<UserId>, copy: Email)
    requires start <= stop && next == table[stop := copy]
    requires forall p :: p in owners ==> exists k :: start <= k < stop && k in table && table[k].owner == p
    ensures forall p :: p in owners + {copy.owner} ==> exists k :: start <= k < stop + 1 && k in next && next[k].owner == p
  {
    forall p | p in owners + {copy.owner} ensures exists k :: start <= k < stop + 1 && k in next && next[k].owner == p {
      if p == copy.owner {
        assert start <= stop < stop + 1 && stop in next && next[stop].owner == p;
      } else {
        var k :| start <= k < stop && k in table && table[k].owner == p;
        assert start <= k < stop + 1 && k in next && next[k] == table[k];
      }
    }
  }

  /** The copies refer only to known users, so the table stays well formed. */
  lemma CopiesWellFormed(table: map<EntryId, Email>, base: map<EntryId, Email>, start: nat, stop: nat,
                         owners: set<UserId>, sender: UserId, recipients: seq<UserId>, subject: string,
                         body: string, now: nat, users: set<UserId>)
    requires Copies(table, base, start, stop, owners, sender, recipients, subject, body, now)
    requires owners <= users && sender in users && NoDup(recipients)
    requires forall j :: 0 <= j < |recipients| ==> recipients[j] in users
    requires start <= stop && forall k :: k in base ==> k < start && WellFormed(base[k], users, now)
    ensures forall k :: k in table ==> k < stop && WellFormed(table[k], users, now)
  {
    forall k | k in table ensures k < stop && WellFormed(table[k], users, now) {
      if k in base {
        assert table[k] == base[k];
      } else {
        assert table[k].owner in owners;
      }
    }
  }

  /**
   * Serialising a mailbox listing: one record per listed entry, carrying its
   * id, so the records are exactly the mailbox's entries, distinct and
   * newest first.
   */
  lemma ServedListing(entries: map<EntryId, Email>, emails: map<UserId, string>, ids: seq<EntryId>,
                      caller: UserId, box: Box)
    requires forall k :: k in entries ==> Resolvable(entries[k], emails)
    requires NewestFirst(entries, ids) && NoDup(ids)
    requires forall k :: k in ids <==> k in entries && InBox(entries[k], caller, box)
    ensures var r := SerializeAll(ids, entries, emails);
      && (forall i :: 0 <= i < |r| ==>
            && r[i].id in entries
            && InBox(entries[r[i].id], caller, box)
            && r[i] == Serialize(r[i].id, entries[r[i].id], emails))
      && (forall k :: k in entries && InBox(entries[k], caller, box) ==>
            exists i :: 0 <= i < |r| && r[i].id == k)
      && (forall i, j :: 0 <= i < j < |r| ==> r[i].id != r[j].id && r[i].timestamp >= r[j].timestamp)
  {
    var r := SerializeAll(ids, entries, emails);
    forall i | 0 <= i < |r| ensures r[i].id == ids[i] && ids[i] in ids {
    }
    forall k | k in entries && InBox(entries[k], caller, box) ensures exists i :: 0 <= i < |r| && r[i].id == k {
      var i :| 0 <= i < |ids| && ids[i] == k;
      assert r[i].id == k;
    }
    forall i, j | 0 <= i < j < |r| ensures r[i].id != r[j].id && r[i].timestamp >= r[j].timestamp {
      assert Before(entries, ids[i], ids[j]);
    }
  }

  class MailStore {
    /** The `User` table: id to email address. */
    var emails: map<UserId, string>
    /** The unique index on the address, which `create_user` also uses as the username. */
    var index: map<string, UserId>
    /** The `Email` table. */
    var entries: map<EntryId, Email>
    var nextUserId: nat
    var nextId: nat
    /** The time now, as the database would stamp it. */
    var clock: nat

    /**
     * The index is the inverse of the user table (so addresses are unique),
     * no account has the empty address, ids already handed out lie below the
     * counters, and every entry refers only to existing users.
     */
    ghost predicate Valid()
      reads this
    {
      && (forall u :: u in emails ==> u < nextUserId && emails[u] != "" && emails[u] in index && index[emails[u]] == u)
      && (forall a :: a in index ==> index[a] in emails && emails[index[a]] == a)
      && (forall k :: k in entries ==> k < nextId && WellFormed(entries[k], emails.Keys, clock))
    }

    constructor ()
      ensures Valid()
      ensures emails == map[] && index == map[] && entries == map[]
      ensures nextUserId == 0 && nextId == 0 && clock == 0
    {
      emails, index, entries := map[], map[], map[];
      nextUserId, nextId, clock := 0, 0, 0;
    }

    /** Time passes between requests; the clock never goes back. */
    method AdvanceClock(now: nat)
      requires Valid() && clock <= now
      modifies this
      ensures Valid()
      ensures clock == now
      ensures emails == old(emails) && index == old(index) && entries == old(entries)
      ensures nextUserId == old(nextUserId) && nextId == old(nextId)
    {
      clock := now;
    }

    /**
     * `register`: an account is created exactly when every check passes, with
     * a fresh id and the given address; otherwise the first failed check is
     * reported and nothing changes.
     */
    method Register(email: Option<string>, password: Option<string>, confirmation: Option<string>)
      returns (r: Result<UserId, RegisterError>)
      requires Valid()
      modifies this
      ensures Valid()
      ensures var check := CheckRegistration(email, password, confirmation, old(index).Keys);
              check.Failure? ==> r == Failure(check.error) && unchanged(this)
      ensures var check := CheckRegistration(email, password, confirmation, old(index).Keys);
              check.Success? ==>
                && r == Success(old(nextUserId))
                && emails == old(emails)[old(nextUserId) := check.value]
                && index == old(index)[check.value := old(nextUserId)]
                && nextUserId == old(nextUserId) + 1
                && entries == old(entries) && nextId == old(nextId) && clock == old(clock)
    {
      var check := CheckRegistration(email, password, confirmation, index.Keys);
      if check.Failure? {
        return Failure(check.error);
      }
      var id := nextUserId;
      var address := check.value;
      ghost var users := emails.Keys;
      emails := emails[id := address];
      index := index[address := id];
      nextUserId := id + 1;
      forall k | k in entries ensures WellFormed(entries[k], emails.Keys, clock) {
        assert WellFormed(entries[k], users, clock);
      }
      r := Success(id);
    }

    /**
     * `compose`: when the recipient field is refused or an address is
     * unknown, the error is returned and nothing is written. Otherwise one
     * new entry per distinct participant, with consecutive fresh ids: each
     * from the sender, to the full recipient list, with the given subject
     * and body (empty when absent), stamped now, read only for the sender's
     * own copy and not archived. Existing entries are untouched.
     * `None` for `subject` or `body` stands for an absent key only.
     */
    method Compose(sender: UserId, recipientText: string, subject: Option<string>, body: Option<string>)
      returns (r: Outcome<ComposeError>)
      requires Valid() && sender in emails
      modifies this
      ensures Valid()
      ensures emails == old(emails) && index == old(index) && nextUserId == old(nextUserId) && clock == old(clock)
      ensures Addressees(old(index), recipientText).Failure? <==> r.Fail?
      ensures r.Fail? ==> r.error == Addressees(old(index), recipientText).error
                          && entries == old(entries) && nextId == old(nextId)
      ensures r.Pass? ==>
        var recipients := Addressees(old(index), recipientText).value;
        && nextId == old(nextId) + |Participants(sender, recipients)|
        && (forall k :: k in entries <==> k in old(entries) || old(nextId) <= k < nextId)
        && (forall k :: k in old(entries) ==> entries[k] == old(entries)[k])
        && (forall k :: old(nextId) <= k < nextId ==>
              entries[k] == CopyFor(entries[k].owner, sender, Dedup(recipients), subject.GetOr(""), body.GetOr(""), old(clock)))
        && (forall k, l :: old(nextId) <= k < l < nextId ==> entries[k].owner != entries[l].owner)
        && (forall p :: p in Participants(sender, recipients) <==>
              exists k :: old(nextId) <= k < nextId && entries[k].owner == p)
    {
      var tokens := Tokens(recipientText);
      SingleEmptyTokenIffBlank(recipientText);
      if tokens == [""] {
        return Fail(NoRecipients);
      }
      var resolved := ResolveRecipients(tokens);
      if resolved.Failure? {
        return Fail(resolved.error);
      }
      var recipients := resolved.value;
      var linked := LinkOnce(recipients);
      FanOut(sender, Participants(sender, recipients), linked, subject.GetOr(""), body.GetOr(""));
      r := Pass;
    }

    /** The lookup loop of `compose`: every address is looked up, in order, before anything is written. */
    method ResolveRecipients(tokens: seq<string>) returns (r: Result<seq<UserId>, ComposeError>)
      requires Valid()
      ensures r == Resolve(index, tokens)
      ensures r.Success? ==> forall j :: 0 <= j < |r.value| ==> r.value[j] in emails
    {
      var recipients: seq<UserId> := [];
      var i := 0;
      while i < |tokens|
        invariant 0 <= i <= |tokens|
        invariant Resolve(index, tokens[..i]) == Success(recipients)
      {
        var address := tokens[i];
        assert tokens[..i + 1][..i] == tokens[..i];
        if address !in index {
          FirstUnknownReported(index, tokens, i);
          return Failure(UnknownRecipient(address));
        }
        recipients := recipients + [index[address]];
        i := i + 1;
      }
      assert tokens[..i] == tokens;
      r := Success(recipients);
    }

    /** The `recipients.add` loop: adding a user who is already linked has no effect. */
    static method LinkOnce(recipients: seq<UserId>) returns (linked: seq<UserId>)
      ensures linked == Dedup(recipients)
    {
      linked := [];
      var j := 0;
      while j < |recipients|
        invariant 0 <= j <= |recipients|
        invariant linked == Dedup(recipients[..j])
      {
        assert recipients[..j + 1][..j] == recipients[..j];
        if recipients[j] !in linked {
          linked := linked + [recipients[j]];
        }
        j := j + 1;
      }
      assert recipients[..j] == recipients;
    }

    /**
     * The creation loop of `compose`: one new entry per user in `users`,
     * under consecutive fresh ids, each owned by its user and otherwise
     * identical, read only when owned by the sender.
     */
    method FanOut(sender: UserId, users: set<UserId>, linked: seq<UserId>, subject: string, body: string)
      requires Valid() && sender in emails && users <= emails.Keys
      requires NoDup(linked) && forall j :: 0 <= j < |linked| ==> linked[j] in emails
      modifies this
      ensures Valid()
      ensures emails == old(emails) && index == old(index) && nextUserId == old(nextUserId) && clock == old(clock)
      ensures nextId == old(nextId) + |users|
      ensures Copies(entries, old(entries), old(nextId), nextId, users, sender, linked, subject, body, clock)
    {
      var table, stop := BuildCopies(entries, nextId, users, sender, linked, subject, body, clock);
      CopiesWellFormed(table, entries, nextId, stop, users, sender, linked, subject, body, clock, emails.Keys);
      entries, nextId := table, stop;
    }

    /** The loop of `FanOut` on the table's value: one `Email(...).save()` per user. */
    static method BuildCopies(base: map<EntryId, Email>, start: nat, users: set<UserId>, sender: UserId,
                              linked: seq<UserId>, subject: string, body: string, now: nat)
      returns (table: map<EntryId, Email>, stop: nat)
      requires forall k :: k in base ==> k < start
      ensures stop == start + |users|
      ensures Copies(table, base, start, stop, users, sender, linked, subject, body, now)
    {
      var remaining := users;
      table, stop := base, start;
      while remaining != {}
        invariant remaining <= users
        invariant start <= stop && stop + |remaining| == start + |users|
        invariant Copies(table, base, start, stop, users - remaining, sender, linked, subject, body, now)
        decreases remaining
      {
        var u :| u in remaining;
        var next := table[stop := CopyFor(u, sender, linked, subject, body, now)];
        CopiesStep(table, next, base, start, stop, users - remaining, sender, linked, subject, body, now, u);
        assert users - (remaining - {u}) == (users - remaining) + {u};
        table := next;
        stop := stop + 1;
        remaining := remaining - {u};
      }
      assert users - remaining == users;
    }

    /** `Email.objects.get(user=caller, pk=id)`: an entry is found only by its owner. */
    function Find(caller: UserId, id: EntryId): (r: Option<Email>)
      reads this
      ensures r.Some? <==> id in entries && entries[id].owner == caller
      ensures r.Some? ==> r.value == entries[id]
    {
      if id in entries && entries[id].owner == caller then Some(entries[id]) else None
    }

    /**
     * The `mailbox` view: for a known name, the serialised form of exactly
     * the caller's entries that pass the mailbox's filter, newest first;
     * otherwise the invalid-mailbox error.
     */
    function Mailbox(caller: UserId, name: string): (r: Result<seq<Serialized>, MailboxError>)
      reads this
      requires Valid()
      ensures r.Failure? <==> ParseBox(name).None?
      ensures r.Success? ==>
        && (forall i :: 0 <= i < |r.value| ==>
              && r.value[i].id in entries
              && InBox(entries[r.value[i].id], caller, ParseBox(name).value)
              && r.value[i] == Serialize(r.value[i].id, entries[r.value[i].id], emails))
        && (forall k :: k in entries && InBox(entries[k], caller, ParseBox(name).value) ==>
              exists i :: 0 <= i < |r.value| && r.value[i].id == k)
        && (forall i, j :: 0 <= i < j < |r.value| ==>
              r.value[i].id != r.value[j].id && r.value[i].timestamp >= r.value[j].timestamp)
    {
      match Listing(entries, nextId, caller, name)
      case Failure(e) => Failure(e)
      case Success(ids) =>
        ServedListing(entries, emails, ids, caller, ParseBox(name).value);
        Success(SerializeAll(ids, entries, emails))
    }

    /** GET: the serialised entry, when the caller owns it; "Email not found" otherwise. */
    function Get(caller: UserId, id: EntryId): (r: Result<Serialized, NotFound>)
      reads this
      requires Valid()
      ensures r.Failure? <==> !(id in entries && entries[id].owner == caller)
      ensures r.Success? ==> r.value == Serialize(id, entries[id], emails)
      ensures r.Success? ==> NoDup(r.value.recipients)
    {
      match Find(caller, id)
      case None => Failure(EmailNotFound)
      case Some(e) =>
        AddressesUnique();
        SerializedRecipientsDistinct(id, e, emails);
        Success(Serialize(id, e, emails))
    }

    /** Because the index inverts the user table, no two users share an address. */
    lemma AddressesUnique()
      requires Valid()
      ensures Injective(emails)
    {
      forall u, v | u in emails && v in emails && emails[u] == emails[v] ensures u == v {
        assert index[emails[u]] == u && index[emails[v]] == v;
      }
    }

    /** PUT: only the supplied flags of the caller's own entry change; for anyone else, NotFound and no change. */
    method Update(caller: UserId, id: EntryId, read: Option<bool>, archived: Option<bool>)
      returns (r: Outcome<NotFound>)
      requires Valid()
      modifies this
      ensures Valid()
      ensures r.Fail? <==> old(Find(caller, id)).None?
      ensures r.Fail? ==> unchanged(this)
      ensures r.Pass? ==>
        && entries == old(entries)[id := ApplyFlags(old(entries)[id], read, archived)]
        && emails == old(emails) && index == old(index)
        && nextUserId == old(nextUserId) && nextId == old(nextId) && clock == old(clock)
    {
      var found := Find(caller, id);
      if found.None? {
        return Fail(EmailNotFound);
      }
      entries := entries[id := ApplyFlags(found.value, read, archived)];
      r := Pass;
    }

    /** DELETE: removes the caller's own entry and nothing else; for anyone else, NotFound and no change. */
    method Delete(caller: UserId, id: EntryId) returns (r: Outcome<NotFound>)
      requires Valid()
      modifies this
      ensures Valid()
      ensures r.Fail? <==> old(Find(caller, id)).None?
      ensures r.Fail? ==> unchanged(this)
      ensures r.Pass? ==>
        && entries == old(entries) - {id}
        && emails == old(emails) && index == old(index)
        && nextUserId == old(nextUserId) && nextId == old(nextId) && clock == old(clock)
    {
      var found := Find(caller, id);
      if found.None? {
        return Fail(EmailNotFound);
      }
      entries := entries - {id};
      r := Pass;
    }

    /**
     * Deleting a user: refused, with nothing changed, while they are the
     * sender of any entry (`on_delete=PROTECT`); otherwise the account goes,
     * the entries they own go with it (`on_delete=CASCADE`), and their
     * recipient links are removed from the remaining entries.
     */
    method DeleteUser(u: UserId) returns (r: Outcome<DeleteError>)
      requires Valid() && u in emails
      modifies this
      ensures Valid()
      ensures r.Fail? <==> exists k :: k in old(entries) && old(entries)[k].sender == u
      ensures r.Fail? ==> r.error == ProtectedSender && unchanged(this)
      ensures r.Pass? ==>
        && emails == old(emails) - {u}
        && index == old(index) - {old(emails)[u]}
        && entries == Cascade(old(entries), u)
        && nextUserId == old(nextUserId) && nextId == old(nextId) && clock == old(clock)
    {
      if exists k :: k in entries && entries[k].sender == u {
        return Fail(ProtectedSender);
      }
      CascadeForgetsUser(entries, emails.Keys, clock, u);
      assert emails.Keys - {u} == (emails - {u}).Keys;
      index := index - {emails[u]};
      emails := emails - {u};
      entries := Cascade(entries, u);
      r := Pass;
    }
  }
}
