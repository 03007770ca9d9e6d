/**
 * The `Email` record of the mail app and its serialised form. A user is an
 * id with a unique email address; an entry is one owner's copy of a message.
 */
module Models {
  import opened Wrappers

  type UserId = nat
  type EntryId = nat

  /**
   * One row of the `Email` table. `owner` is the model's `user` field (the
   * mailbox the row belongs to); `recipients` is the many-to-many link,
   * kept duplicate-free in the order the links were added.
   */
  datatype Email = Email(
    owner: UserId,
    sender: UserId,
    recipients: seq<UserId>,
    subject: string,
    body: string,
    timestamp: nat,
    read: bool,
    archived: bool)

  predicate NoDup<T(==)>(s: seq<T>) {
    forall i, j :: 0 <= i < j < |s| ==> s[i] != s[j]
  }

  /**
   * `Email(user=..., sender=..., subject=..., body=..., read=...)`: a flag that
   * is not passed takes the field's default, False; the timestamp is the
   * clock's value at creation.
   */
  function NewEmail(owner: UserId, sender: UserId, recipients: seq<UserId>, subject: string,
                    body: string, now: nat, read: Option<bool>, archived: Option<bool>): (e: Email)
    ensures e.owner == owner && e.sender == sender && e.recipients == recipients
    ensures e.subject == subject && e.body == body && e.timestamp == now
    ensures e.read <==> read == Some(true)
    ensures e.archived <==> archived == Some(true)
  {
    Email(owner, sender, recipients, subject, body, now, read.GetOr(false), archived.GetOr(false))
  }

  /** Every user an entry refers to is in `users`, and it was created no later than `clock`. */
  predicate WellFormed(e: Email, users: set<UserId>, clock: nat) {
    && e.owner in users
    && e.sender in users
    && (forall i :: 0 <= i < |e.recipients| ==> e.recipients[i] in users)
    && NoDup(e.recipients)
    && e.timestamp <= clock
  }

  /** A user-id-to-email map in which no two users share an address. */
  predicate Injective(emails: map<UserId, string>) {
    forall u, v :: u in emails && v in emails && emails[u] == emails[v] ==> u == v
  }

  /** The dictionary `Email.serialize` returns; the timestamp stays a number. */
  datatype Serialized = Serialized(
    id: EntryId,
    sender: string,
    recipients: seq<string>,
    subject: string,
    body: string,
    timestamp: nat,
    read: bool,
    archived: bool)

  predicate Resolvable(e: Email, emails: map<UserId, string>) {
    e.sender in emails && forall i :: 0 <= i < |e.recipients| ==> e.recipients[i] in emails
  }

  /**
   * `Email.serialize`: users are replaced by their addresses, one recipient
   * address per linked recipient and in the same order; everything else is
   * copied unchanged, and the owner is not disclosed.
   */
  function Serialize(id: EntryId, e: Email, emails: map<UserId, string>): (s: Serialized)
    requires Resolvable(e, emails)
    ensures s.id == id && s.sender == emails[e.sender]
    ensures |s.recipients| == |e.recipients|
    ensures forall i :: 0 <= i < |s.recipients| ==> s.recipients[i] == emails[e.recipients[i]]
    ensures s.subject == e.subject && s.body == e.body && s.timestamp == e.timestamp
    ensures s.read == e.read && s.archived == e.archived
  {
    Serialized(id, emails[e.sender], seq(|e.recipients|, i requires 0 <= i < |e.recipients| => emails[e.recipients[i]]),
               e.subject, e.body, e.timestamp, e.read, e.archived)
  }

  /** Because addresses are unique, the serialised recipient list repeats no address. */
  lemma SerializedRecipientsDistinct(id: EntryId, e: Email, emails: map<UserId, string>)
    requires Resolvable(e, emails) && Injective(emails) && NoDup(e.recipients)
    ensures NoDup(Serialize(id, e, emails).recipients)
  {
    var s := Serialize(id, e, emails);
    forall i, j | 0 <= i < j < |s.recipients| ensures s.recipients[i] != s.recipients[j] {
      assert e.recipients[i] != e.recipients[j];
    }
  }

  /** The list comprehension of the `mailbox` view: one serialised entry per id, in order. */
  function SerializeAll(ids: seq<EntryId>, entries: map<EntryId, Email>, emails: map<UserId, string>): (r: seq<Serialized>)
    requires forall i :: 0 <= i < |ids| ==> ids[i] in entries && Resolvable(entries[ids[i]], emails)
    ensures |r| == |ids|
    ensures forall i :: 0 <= i < |ids| ==> r[i] == Serialize(ids[i], entries[ids[i]], emails)
  {
    seq(|ids|, i requires 0 <= i < |ids| => Serialize(ids[i], entries[ids[i]], emails))
  }

  /** `s` without `u`, order kept: what removing `u`'s many-to-many links leaves. */
  function Without(s: seq<UserId>, u: UserId): (r: seq<UserId>)
    ensures forall x :: x in r <==> x in s && x != u
    ensures |r| <= |s|
    ensures NoDup(s) ==> NoDup(r)
  {
    if s == [] then []
    else if s[0] == u then Without(s[1..], u)
    else
      var rest := Without(s[1..], u);
      assert NoDup(s) ==> s[0] !in rest;
      [s[0]] + rest
  }

  /**
   * The effect on the `Email` table of deleting user `u`: the `user` foreign
   * key cascades, so the entries `u` owns go; the other entries lose their
   * recipient link to `u` and keep everything else.
   */
  function Cascade(entries: map<EntryId, Email>, u: UserId): (r: map<EntryId, Email>)
    ensures forall k :: k in r <==> k in entries && entries[k].owner != u
    ensures forall k :: k in r ==> r[k] == entries[k].(recipients := Without(entries[k].recipients, u))
  {
    map k | k in entries && entries[k].owner != u :: entries[k].(recipients := Without(entries[k].recipients, u))
  }

  /**
   * After the cascade, and when `u` sent none of the entries, no entry
   * refers to `u` in any role, and every entry is still well formed over the
   * remaining users.
   */
  lemma CascadeForgetsUser(entries: map<EntryId, Email>, users: set<UserId>, clock: nat, u: UserId)
    requires forall k :: k in entries ==> WellFormed(entries[k], users, clock)
    requires forall k :: k in entries ==> entries[k].sender != u
    ensures forall k :: k in Cascade(entries, u) ==> WellFormed(Cascade(entries, u)[k], users - {u}, clock)
  {
    var r := Cascade(entries, u);
    forall k | k in r ensures WellFormed(r[k], users - {u}, clock) {
      var e := entries[k];
      assert WellFormed(e, users, clock);
      forall i | 0 <= i < |r[k].recipients| ensures r[k].recipients[i] in users - {u} {
        assert r[k].recipients[i] in Without(e.recipients, u);
      }
    }
  }
}
