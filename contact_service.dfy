/** Identity reconciliation: `identifyContact` over the contact table. The
    function `Identify` states the effect of one call (the reply and the new
    table); the class `ContactTable` holds the table and performs the call
    step by step, and its method `IdentifyContact` is proved to agree with
    `Identify`. */
module ContactService {
  import opened ContactModel
  import opened Projection

  /** The one failure of `identifyContact`: only secondaries matched, so there
      is no first primary and reading its id throws. */
  datatype Failure = PrimaryUndefined

  datatype Result<T> = Ok(value: T) | Err(failure: Failure)

  /** What one call returns and the table it leaves behind. */
  datatype Outcome = Outcome(reply: Result<Response>, table: seq<Contact>)

  /** The row `Contact.create` inserts for the request fields. */
  function Draft(id: nat, email: Field, phoneNumber: Field, precedence: Precedence, linkedId: Option<nat>): (c: Contact)
    ensures c.id == id && c.linkPrecedence == precedence && c.linkedId == linkedId
    ensures StrictEquals(c.email, email) <==> email.Null? || email.Text?
    ensures StrictEquals(c.phoneNumber, phoneNumber) <==> phoneNumber.Null? || phoneNumber.Text?
  {
    Contact(id, Stored(email), Stored(phoneNumber), precedence, linkedId)
  }

  /** The exact-match test: the row is strictly equal to the request on both
      its email and its phone number. */
  predicate ExactlyEquals(c: Contact, email: Field, phoneNumber: Field)
  {
    StrictEquals(c.email, email) && StrictEquals(c.phoneNumber, phoneNumber)
  }

  predicate HasExactMatch(cs: seq<Contact>, email: Field, phoneNumber: Field)
  {
    exists c :: c in cs && ExactlyEquals(c, email, phoneNumber)
  }

  /** The rows the lookup query returns, oldest first. */
  function Matching(rows: seq<Contact>, email: Field, phoneNumber: Field): seq<Contact>
  {
    Select(rows, MatchesRequest(email, phoneNumber))
  }

  /** The primaries among the matched rows, oldest first. */
  function MatchedPrimaries(rows: seq<Contact>, email: Field, phoneNumber: Field): seq<Contact>
  {
    Select(Matching(rows, email, phoneNumber), IsPrimary)
  }

  /** The row after demoting `to` and re-linking `from` to `to`: `save()` of
      the demoted primary writes precedence and link together. */
  function Demoted(c: Contact, survivor: nat): (d: Contact)
    ensures d.id == c.id && d.email == c.email && d.phoneNumber == c.phoneNumber
    ensures d.linkPrecedence == Secondary && d.linkedId == Some(survivor)
  {
    c.(linkPrecedence := Secondary, linkedId := Some(survivor))
  }

  /** The row after the bulk update that re-points every row linked to
      `from` at `to`. */
  function Relinked(c: Contact, from: nat, to: nat): (d: Contact)
    ensures d.id == c.id && d.email == c.email && d.phoneNumber == c.phoneNumber
    ensures d.linkPrecedence == c.linkPrecedence
    ensures d.linkedId == if c.linkedId == Some(from) then Some(to) else c.linkedId
  {
    if c.linkedId == Some(from) then c.(linkedId := Some(to)) else c
  }

  /** The row once every primary in `demoted` has been demoted under
      `survivor` and every row linked to one of them re-linked to `survivor`,
      whatever the order the demotions ran in. */
  function MergedRow(c: Contact, survivor: nat, demoted: seq<nat>): Contact
  {
    if c.id in demoted then Demoted(c, survivor)
    else if c.linkedId.Some? && c.linkedId.value in demoted then c.(linkedId := Some(survivor))
    else c
  }

  /** Demoting one more primary `d`, then re-linking the rows linked to it,
      extends the merge by `d`. */
  lemma MergedRowStep(c: Contact, current: Contact, survivor: nat, demoted: seq<nat>, d: nat)
    requires current == MergedRow(c, survivor, demoted)
    requires survivor != d
    ensures Relinked(if c.id == d then Demoted(current, survivor) else current, d, survivor)
            == MergedRow(c, survivor, demoted + [d])
  {
  }

  function Merge(rows: seq<Contact>, survivor: nat, demoted: seq<nat>): (merged: seq<Contact>)
    ensures |merged| == |rows|
    ensures forall i :: 0 <= i < |rows| ==> merged[i] == MergedRow(rows[i], survivor, demoted)
  {
    seq(|rows|, i requires 0 <= i < |rows| => MergedRow(rows[i], survivor, demoted))
  }

  /** The effect of `identifyContact(email, phoneNumber)` on a table whose rows
      are listed in creation order. */
  function Identify(rows: seq<Contact>, email: Field, phoneNumber: Field): (o: Outcome)
    ensures |rows| <= |o.table| <= |rows| + 1
    ensures o.reply.Err? ==> o.table == rows
  {
    var contacts := Matching(rows, email, phoneNumber);
    if contacts == [] then
      CreatePrimary(rows, email, phoneNumber)
    else
      var exact := HasExactMatch(contacts, email, phoneNumber);
      var primaries := Select(contacts, IsPrimary);
      if |primaries| > 1 then
        MergeClusters(rows, primaries, exact, email, phoneNumber)
      else if primaries == [] then
        Outcome(Err(PrimaryUndefined), rows)
      else
        ExtendCluster(rows, contacts, primaries[0], exact, email, phoneNumber)
  }

  /** No row matched: a new primary. */
  function CreatePrimary(rows: seq<Contact>, email: Field, phoneNumber: Field): (o: Outcome)
    ensures o.reply.Ok? && o.table == rows + [Draft(|rows|, email, phoneNumber, Primary, None)]
  {
    var created := Draft(|rows|, email, phoneNumber, Primary, None);
    Outcome(Ok(Project(created, [])), rows + [created])
  }

  /** Several primaries matched: the oldest absorbs the others, then gains a
      secondary for the request unless it is already known. */
  function MergeClusters(rows: seq<Contact>, primaries: seq<Contact>, exact: bool, email: Field, phoneNumber: Field): (o: Outcome)
    requires |primaries| > 1
    ensures o.reply.Ok?
    ensures o.table == Merge(rows, primaries[0].id, Ids(primaries[1..]))
                       + (if exact then [] else [Draft(|rows|, email, phoneNumber, Secondary, Some(primaries[0].id))])
  {
    var oldest := primaries[0];
    var merged := Merge(rows, oldest.id, Ids(primaries[1..]));
    var linked := Select(merged, InCluster(oldest.id));
    if exact then
      Outcome(Ok(Project(oldest, Select(linked, NotId(oldest.id)))), merged)
    else
      var created := Draft(|merged|, email, phoneNumber, Secondary, Some(oldest.id));
      Outcome(Ok(Project(oldest, Select(linked + [created], NotId(oldest.id)))), merged + [created])
  }

  /** One primary matched: it gains a secondary for the request unless the
      request is already known. */
  function ExtendCluster(rows: seq<Contact>, contacts: seq<Contact>, primary: Contact, exact: bool, email: Field, phoneNumber: Field): (o: Outcome)
    ensures o.reply.Ok?
    ensures o.table == rows + (if exact then [] else [Draft(|rows|, email, phoneNumber, Secondary, Some(primary.id))])
  {
    if exact then
      Outcome(Ok(Project(primary, Select(contacts, NotId(primary.id)))), rows)
    else
      var created := Draft(|rows|, email, phoneNumber, Secondary, Some(primary.id));
      Outcome(Ok(Project(primary, Select(contacts + [created], NotId(primary.id)))), rows + [created])
  }

  /** The contact table. Rows are kept in creation order and never removed. */
  class ContactTable {
    var rows: seq<Contact>

    ghost predicate Valid()
      reads this
    {
      Indexed(rows)
    }

    constructor ()
      ensures Valid() && rows == []
    {
      rows := [];
    }

    /** `Contact.create`: append a row with the next id. */
    method Create(email: Field, phoneNumber: Field, precedence: Precedence, linkedId: Option<nat>) returns (c: Contact)
      requires Valid()
      modifies this
      ensures Valid()
      ensures c == Draft(|old(rows)|, email, phoneNumber, precedence, linkedId)
      ensures rows == old(rows) + [c]
    {
      c := Draft(|rows|, email, phoneNumber, precedence, linkedId);
      rows := rows + [c];
    }

    /** Set a primary's precedence to secondary and its link to `survivor`,
        then `save()` it. */
    method Demote(id: nat, survivor: nat)
      requires Valid() && id < |rows|
      modifies this
      ensures Valid()
      ensures rows == old(rows)[id := Demoted(old(rows)[id], survivor)]
    {
      rows := rows[id := Demoted(rows[id], survivor)];
    }

    /** The bulk update: every row linked to `from` is re-pointed at `to`. */
    method Relink(from: nat, to: nat)
      requires Valid()
      modifies this
      ensures Valid()
      ensures |rows| == |old(rows)|
      ensures forall i :: 0 <= i < |rows| ==> rows[i] == Relinked(old(rows)[i], from, to)
    {
      var current := rows;
      rows := seq(|current|, i requires 0 <= i < |current| => Relinked(current[i], from, to));
    }

    /** The merge loop: demote each primary of `toDemote` under `survivor`
        and re-link its secondaries to `survivor`. */
    method MergeInto(survivor: nat, toDemote: seq<Contact>)
      requires Valid()
      requires forall c :: c in toDemote ==> survivor < c.id < |rows|
      modifies this
      ensures Valid()
      ensures rows == Merge(old(rows), survivor, Ids(toDemote))
    {
      for k := 0 to |toDemote|
        invariant Valid() && |rows| == |old(rows)|
        invariant forall i :: 0 <= i < |rows| ==> rows[i] == MergedRow(old(rows)[i], survivor, Ids(toDemote[..k]))
      {
        assert toDemote[k] in toDemote;
        var d := toDemote[k].id;
        ghost var before := rows;
        Demote(d, survivor);
        Relink(d, survivor);
        assert Ids(toDemote[..k + 1]) == Ids(toDemote[..k]) + [d];
        forall i | 0 <= i < |rows|
          ensures rows[i] == MergedRow(old(rows)[i], survivor, Ids(toDemote[..k + 1]))
        {
          MergedRowStep(old(rows)[i], before[i], survivor, Ids(toDemote[..k]), d);
        }
      }
      assert toDemote[..|toDemote|] == toDemote;
    }

    /** `identifyContact(email, phoneNumber)`. */
    method IdentifyContact(email: Field, phoneNumber: Field) returns (reply: Result<Response>)
      requires Valid()
      modifies this
      ensures Valid()
      ensures Outcome(reply, rows) == Identify(old(rows), email, phoneNumber)
    {
      var contacts := Select(rows, MatchesRequest(email, phoneNumber));
      if |contacts| == 0 {
        var newPrimary := Create(email, phoneNumber, Primary, None);
        var r := FormatResponse(newPrimary, []);
        return Ok(r);
      }
      var exact := HasExactMatch(contacts, email, phoneNumber);
      var primaries := Select(contacts, IsPrimary);
      if |primaries| > 1 {
        var oldest := primaries[0];
        assert forall c :: c in primaries[1..] ==> oldest.id < c.id < |rows| by {
          forall c | c in primaries[1..] ensures oldest.id < c.id < |rows| {
            var k :| 0 <= k < |primaries| - 1 && primaries[1..][k] == c;
            assert primaries[k + 1] == c;
            assert c in rows;
            var i :| 0 <= i < |rows| && rows[i] == c;
          }
        }
        MergeInto(oldest.id, primaries[1..]);
        var allLinked := Select(rows, InCluster(oldest.id));
        if !exact {
          var newSecondary := Create(email, phoneNumber, Secondary, Some(oldest.id));
          allLinked := allLinked + [newSecondary];
        }
        var r := FormatResponse(oldest, Select(allLinked, NotId(oldest.id)));
        return Ok(r);
      }
      if |primaries| == 0 {
        // reading the id of a missing first primary throws before anything is written
        return Err(PrimaryUndefined);
      }
      var primary := primaries[0];
      if !exact {
        var newSecondary := Create(email, phoneNumber, Secondary, Some(primary.id));
        contacts := contacts + [newSecondary];
      }
      var r := FormatResponse(primary, Select(contacts, NotId(primary.id)));
      return Ok(r);
    }
  }
}
