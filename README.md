# Webmail mailbox store

This project models the core of a small webmail application written with Django. `register` makes the email address the user's unique username, and the model treats addresses as unique. When a user composes a message, it is stored as one row per participant: the sender and every recipient each get their own copy, called an entry, which they own. The JSON API does four things with those entries:
- `compose` fans one message out into copies;
- `mailbox` lists a caller's inbox, sent mailbox or archive, newest first;
- `email` reads, flags or deletes one of the caller's own entries;
- `register` validates a sign-up form before it creates an account.

The `Email` record defines the copies' default flags and their serialised form. Its foreign keys define what deleting a user does: the user's own entries are deleted with them (CASCADE), but the deletion is refused while the user is the sender of any entry (PROTECT).

The Dafny modules follow that structure:

- `Wrappers`: `Option`, `Result` and `Outcome` (success or an error, with no value).
- `Text`:
  - Python's `str.split(",")` and `str.strip()`, using `str.isspace`'s character set;
  - the token list that `compose` builds from the recipient field.
- `Models`:
  - the `Email` record and its defaults;
  - `serialize`;
  - the effect of deleting a user on the `Email` table.
- `Compose`: resolving addresses to users, the many-to-many link list, and the participant set.
- `Mailboxes`: the three mailbox filters and the newest-first order.
- `Registration`: the registration validation ladder.
- `Store`: the class `MailStore` holds the user table, the address index (addresses are treated as unique), the `Email` table, the id counters and the clock. Its methods are the views.
  - `Compose` is imperative, like the view it models:
    - a lookup loop that resolves every address before anything is written;
    - a loop that adds the many-to-many links;
    - a loop that creates one entry per participant.
  - Each method is proved against the functions of the other modules.

The signed-in user is an explicit `caller` (or `sender`) argument. Timestamps are natural numbers read from the store's clock. The clock only moves forward, and only between requests.

Two behaviours of the code are easy to miss:
- **Self-addressed mail.** If the sender also lists their own address as a recipient, the sender's single copy shows up in both their inbox and their sent mailbox. This is because the inbox filter checks only whether the owner is a recipient.
- **PROTECT covers a user's own copies.** A user is undeletable while any entry names them as sender, and that includes their own sent copies.

## Model

| member | source | states |
|---|---|---|
| Text.Split | mail/views.py:36 | `split(",")` always yields at least one piece, and no piece contains a comma |
| Text.JoinSplit | mail/views.py:36 | joining the pieces with commas gives back the original string, so splitting loses nothing |
| Text.SplitJoin | mail/views.py:36 | splitting the comma-join of comma-free pieces gives back exactly those pieces |
| Text.SplitSingle | mail/views.py:36 | a string is a single piece exactly when it contains no comma |
| Text.Strip | mail/views.py:36 | `strip()` returns the empty string exactly when the input is all whitespace; otherwise it neither starts nor ends with whitespace |
| Text.StripIsSlice | mail/views.py:36 | the stripped token is a contiguous slice of the input, and only whitespace lies before and after it |
| Text.StripIdempotent | mail/views.py:36 | stripping twice is the same as stripping once |
| Text.Tokens | mail/views.py:36 | the comprehension `[email.strip() for email in s.split(",")]`: one stripped token per comma-separated piece, in order |
| Text.TokensAreTrimmed | mail/views.py:36 | there are as many tokens as pieces, and every token is free of commas and has no whitespace left to strip |
| Text.SingleEmptyTokenIffBlank | mail/views.py:36-37 | the token list equals `[""]` exactly when the recipient field is all whitespace |
| Text.TrailingCommaTokens | mail/views.py:36 | for a stripped, comma-free address, `address + ", "` gives the tokens `[address, ""]`, and the field is not blank |
| Compose.Resolve | mail/views.py:42-51 | resolution succeeds exactly when every token is a known address; the result is the users in token order; a failure names the first unknown token |
| Compose.FirstUnknownReported | mail/views.py:43-51 | when tokens before position k are known and token k is not, the unknown-user error names token k |
| Compose.Addressees | mail/views.py:36-51 | the "at least one recipient" error occurs exactly for a blank field; otherwise the outcome is the resolution of the tokens |
| Compose.TrailingCommaIsUnknownRecipient | mail/views.py:36-51 | `"a@x, "` with a known `a@x` gives the unknown-user error for the empty address, not the "at least one recipient" error |
| Compose.BlankTokenFails | mail/views.py:36-51 | a blank token among several tokens makes compose fail with an unknown-user error |
| Compose.Dedup | mail/views.py:68-69 | the linked recipients contain no duplicates, are exactly the resolved users, and are never more numerous |
| Compose.Participants | mail/views.py:56-58 | the participant set is the sender plus every resolved recipient, and nothing else |
| Compose.ParticipantCount | mail/views.py:56-59 | there is one copy per distinct participant: the distinct recipients, plus one for the sender unless the sender is also a recipient |
| Mailboxes.ParseBox | mail/views.py:79-92 | exactly the names `inbox`, `sent` and `archive` select a mailbox; every other name selects none |
| Mailboxes.InBox | mail/views.py:80-90 | the entry is the caller's and: the caller is a recipient and it is not archived (inbox); the caller is its sender (sent); the caller is a recipient and it is archived (archive) |
| Mailboxes.Insert | mail/views.py:94 | inserting an entry into a newest-first list keeps it newest first, makes it one longer, and adds exactly that entry |
| Mailboxes.Collect | mail/views.py:80-94 | the collected ids are newest first (so each appears once) and are exactly the caller's entries below the id bound that pass the filter |
| Mailboxes.Listing | mail/views.py:78-94 | an unknown name gives the invalid-mailbox error; otherwise the list is exactly the caller's entries that pass that mailbox's filter, distinct and newest first (ties in ascending id order) |
| Mailboxes.ListingIsolated | mail/views.py:80-90 | a caller's mailboxes depend only on the entries the caller owns |
| Mailboxes.ReceivedInInboxOrArchive | mail/views.py:80-90 | a received entry of the caller's is in the inbox when not archived, and in the archive when archived |
| Mailboxes.SelfAddressedInInboxAndSent | mail/views.py:80-86 | the sender's copy of a message they addressed to themselves is in both their inbox and their sent mailbox |
| Models.NewEmail | mail/models.py:29-36 | a new record carries the given fields and the current time as its timestamp; each flag is true only when explicitly set to true, otherwise it defaults to false |
| Models.Serialize | mail/models.py:39-49 | the serialised form holds the id, the sender's address, one address per recipient in order, and subject, body, timestamp and both flags unchanged |
| Models.SerializedRecipientsDistinct | mail/models.py:43 | because addresses are unique, the serialised recipient list repeats no address |
| Models.SerializeAll | mail/views.py:95 | one serialised record per id, in the order of the ids |
| Models.Without | mail/models.py:21 | removing a user's many-to-many links keeps exactly the other recipients and keeps the list duplicate-free |
| Models.Cascade | mail/models.py:14-21 | after a user is deleted, the user's own entries are gone; every other entry remains, with the user removed from its recipients |
| Models.CascadeForgetsUser | mail/models.py:14-21 | when the deleted user sent no entry, every remaining entry refers only to the remaining users |
| Registration.CheckRegistration | mail/views.py:137-161 | each error is reported exactly when the earlier checks pass and its own check fails: missing field, then a password shorter than 8 characters, then a mismatched confirmation, then a taken address; success gives the non-empty address |
| Registration.FormChecksPrecedeUniqueness | mail/views.py:137-161 | a form that fails a form check fails it in the same way whichever addresses are already taken |
| Store.ApplyFlags | mail/views.py:113-116 | a flag takes the supplied value only when one is supplied; every other field, including the timestamp, is unchanged |
| Store.ApplyFlagsIdempotent | mail/views.py:112-117 | an update that supplies no flags changes nothing, and repeating an update has no further effect |
| Store.DeleteKeepsOtherMailboxes | mail/views.py:120-122 | deleting one copy leaves every other user's mailboxes unchanged |
| Store.UpdateKeepsOtherMailboxes | mail/views.py:111-118 | flagging one copy leaves every other user's mailboxes unchanged |
| Store.ArchivingMovesToArchive | mail/views.py:111-118 | archiving a received copy moves it out of its owner's inbox and into their archive |
| Store.CopyFor | mail/views.py:60-66 | a participant's copy is from the sender, to the recipients, with the given subject and body, stamped now, read exactly when the owner is the sender, and not archived |
| Store.CopiesStep | mail/views.py:59-70 | saving one more participant's copy under the next id extends the fan-out table by exactly that copy |
| Store.CopiesWellFormed | mail/views.py:59-70 | the copies refer only to existing users, so every entry stays well formed |
| Store.ServedListing | mail/views.py:94-95 | the serialised records of a listing are exactly the mailbox's entries, with distinct ids and non-increasing timestamps |
| Store.MailStore.AdvanceClock | mail/models.py:30 | the clock moves forward only and nothing else changes |
| Store.MailStore.Register | mail/views.py:130-161 | an account with a fresh id and the given address is created exactly when the validation ladder passes; otherwise the ladder's error is returned and the store is unchanged |
| Store.MailStore.Compose | mail/views.py:31-72 | on a refused or unknown address, that error is returned and nothing is written; otherwise one entry per distinct participant under fresh consecutive ids, each a copy as CopyFor states, with old entries untouched |
| Store.MailStore.ResolveRecipients | mail/views.py:42-51 | the lookup loop computes exactly Resolve, and every resolved user exists |
| Store.MailStore.LinkOnce | mail/views.py:68-69 | the `recipients.add` loop produces exactly the duplicate-free list Dedup |
| Store.MailStore.FanOut | mail/views.py:56-70 | the store gains one entry per participant under consecutive fresh ids, and nothing else changes |
| Store.MailStore.BuildCopies | mail/views.py:59-70 | the creation loop adds exactly one copy per user to the table, under ids from start upwards |
| Store.MailStore.Find | mail/views.py:103-106 | an entry is found exactly when it exists and the caller owns it |
| Store.MailStore.Mailbox | mail/views.py:78-95 | an unknown name gives the invalid-mailbox error; otherwise the result is every entry of the caller's that passes the filter, serialised, once each, newest first |
| Store.MailStore.Get | mail/views.py:102-109 | the serialised entry when the caller owns it; "Email not found" exactly otherwise; its recipient list repeats no address |
| Store.MailStore.AddressesUnique | mail/views.py:156-158 | in a valid store no two users share an address, since the address is the unique username |
| Store.MailStore.Update | mail/views.py:102-118 | "Email not found" with no change unless the caller owns the entry; otherwise only that entry changes, by ApplyFlags |
| Store.MailStore.Delete | mail/views.py:102-122 | "Email not found" with no change unless the caller owns the entry; otherwise exactly that one entry is removed |
| Store.MailStore.DeleteUser | mail/models.py:14-21 | refused, with no change, exactly when the user is the sender of some entry; otherwise the account, its address and its owned entries go, and its recipient links are removed |

## Left out

- HTTP: the allowed methods and their status codes are not modelled; each view's outcome is a `Result` or `Outcome` value. The `index`, `inbox`, `login_view` and `logout_view` views are also left out, as are Django's `render` and redirects.
- Authentication, sessions and password hashing: these happen inside Django. The signed-in user is a parameter, and the account table stores only addresses.
- JSON request parsing: the parsed fields are parameters. In an update, a flag that is absent or `null` is `None`.
- Store.MailStore.Update: a flag is taken to be a boolean. The view assigns whatever non-null JSON value it receives (mail/views.py:114, 116); the boolean field then coerces or rejects it on save.
- Store.MailStore.Compose: requires that the field `recipients` is present in the request. The view crashes without it, because it calls `split` on `None`.
- Store.MailStore.Compose: `None` for `subject` or `body` means only that the key is absent, which gives `""`. A JSON `null` is not modelled: the view passes `None` on to the record, and the first `save()` fails on the NOT NULL column before anything is written.
- Store.MailStore.Compose: the subject's maximum length of 255 characters is not checked, and neither does the view check it. The model does not capture what the database does with a longer subject.
- Store.MailStore.Compose: every copy of one message carries the same timestamp. In the view, each `save()` reads the time anew. The clock advances only between requests.
- Store.MailStore.Compose: the participant set is an unordered set. Which participant receives which of the consecutive ids is left unspecified, as Python's set order is.
- Store.MailStore.Compose: the whole fan-out is one atomic step. The view runs without a transaction, so a database failure partway through is not modelled.
- Compose.Dedup: the linked recipients are kept in the order of first occurrence, but the contract does not state that order, because the database returns many-to-many links in no guaranteed order.
- Mailboxes.Listing: ties between equal timestamps are broken by ascending id. The database leaves that order open.
- `strftime` formatting of the timestamp in `serialize`: it is a library call, and the timestamp stays a number.
- `create_user`'s address normalisation and the hashing of the password: addresses are compared exactly as given.
- Address uniqueness: the user table has no unique email column; only the username is unique, and `register` passes the address as the username (mail/views.py:156), so the duplicate error comes from that column (mail/views.py:158). The model keeps one index for both. Accounts made another way, or whose normalised email differs from the username, could share an address or have an empty one; `compose`'s lookup by email (mail/views.py:45) would then raise `MultipleObjectsReturned` or match the empty address. `MailStore.Valid()` rules out both, and the empty-address exclusion is what lets `Compose.TrailingCommaIsUnknownRecipient` require `"" !in index`.
- `Email.__str__` is left out because it is display text only. The static `inbox.js` front end and `urls.py` routing are not part of this model.
