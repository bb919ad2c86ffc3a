/** What one call of `identifyContact` does to the contact table and what it
    replies, stated about the function `Identify`. */
module Reconciliation {
  import opened ContactModel
  import opened Projection
  import opened ContactService

  /** Links are one hop: a primary carries no link, and a secondary links
      directly to a row that is a primary. */
  predicate WellLinked(rows: seq<Contact>)
  {
    forall i :: 0 <= i < |rows| ==>
      match rows[i].linkedId
      case None => rows[i].linkPrecedence == Primary
      case Some(p) => rows[i].linkPrecedence == Secondary && p < |rows| && rows[p].linkPrecedence == Primary
  }

  predicate MatchedPrimary(rows: seq<Contact>, email: Field, phoneNumber: Field, c: Contact)
  {
    c in rows && Holds(MatchesRequest(email, phoneNumber), c) && c.linkPrecedence == Primary
  }

  /** Some row the lookup returns equals the request on both fields. */
  predicate KnownRequest(rows: seq<Contact>, email: Field, phoneNumber: Field)
  {
    exists c :: c in rows && Holds(MatchesRequest(email, phoneNumber), c) && ExactlyEquals(c, email, phoneNumber)
  }

  /** `oldest` is the earliest-created of at least two matched primaries. */
  ghost predicate OldestOfSeveral(rows: seq<Contact>, email: Field, phoneNumber: Field, oldest: Contact)
  {
    && MatchedPrimary(rows, email, phoneNumber, oldest)
    && (forall c :: MatchedPrimary(rows, email, phoneNumber, c) ==> oldest.id <= c.id)
    && (exists c :: MatchedPrimary(rows, email, phoneNumber, c) && c != oldest)
  }

  /** A row that the merge around `oldest` touches: one of the other matched
      primaries, or a row linked to one of them. */
  ghost predicate Absorbed(rows: seq<Contact>, email: Field, phoneNumber: Field, oldest: Contact, r: Contact)
  {
    exists c :: MatchedPrimary(rows, email, phoneNumber, c) && c != oldest && (r.id == c.id || r.linkedId == Some(c.id))
  }

  lemma RowInIndexed(rows: seq<Contact>, c: Contact)
    requires Indexed(rows) && c in rows
    ensures c.id < |rows| && rows[c.id] == c
  {
    var i :| 0 <= i < |rows| && rows[i] == c;
  }

  lemma KnownRequestIsExactMatch(rows: seq<Contact>, email: Field, phoneNumber: Field)
    ensures KnownRequest(rows, email, phoneNumber) <==> HasExactMatch(Matching(rows, email, phoneNumber), email, phoneNumber)
  {
    var ms := Matching(rows, email, phoneNumber);
    if KnownRequest(rows, email, phoneNumber) {
      var c :| c in rows && Holds(MatchesRequest(email, phoneNumber), c) && ExactlyEquals(c, email, phoneNumber);
      assert c in ms;
    }
    if HasExactMatch(ms, email, phoneNumber) {
      var c :| c in ms && ExactlyEquals(c, email, phoneNumber);
      assert c in rows;
    }
  }

  /** In the merge case the query's primaries, oldest first, start with
      `oldest`. */
  lemma OldestHeadsPrimaries(rows: seq<Contact>, email: Field, phoneNumber: Field, oldest: Contact)
    requires Indexed(rows)
    requires OldestOfSeveral(rows, email, phoneNumber, oldest)
    ensures var ps := MatchedPrimaries(rows, email, phoneNumber);
      && |ps| > 1 && ps[0] == oldest
      && oldest.id < |rows| && rows[oldest.id] == oldest
  {
    var ms := Matching(rows, email, phoneNumber);
    var ps := MatchedPrimaries(rows, email, phoneNumber);
    RowInIndexed(rows, oldest);
    assert oldest in ms;
    assert oldest in ps;
    var m :| 0 <= m < |ps| && ps[m] == oldest;
    assert ps[0] in ps;
    assert forall j :: 0 < j < |ps| ==> ps[0].id < ps[j].id;
    assert oldest.id <= ps[0].id;
    assert m == 0;
    var other :| MatchedPrimary(rows, email, phoneNumber, other) && other != oldest;
    assert other in ps;
    var n :| 0 <= n < |ps| && ps[n] == other;
    assert n != 0;
  }

  /** In the merge case the ids demoted are exactly those of the matched
      primaries other than `oldest`. */
  lemma DemotedAreOtherPrimaries(rows: seq<Contact>, email: Field, phoneNumber: Field, oldest: Contact)
    requires Indexed(rows)
    requires OldestOfSeveral(rows, email, phoneNumber, oldest)
    ensures var ps := MatchedPrimaries(rows, email, phoneNumber);
      && |ps| > 1
      && forall d: nat :: d in Ids(ps[1..]) <==> d < |rows| && d != oldest.id && MatchedPrimary(rows, email, phoneNumber, rows[d])
  {
    OldestHeadsPrimaries(rows, email, phoneNumber, oldest);
    var ps := MatchedPrimaries(rows, email, phoneNumber);
    var tail := ps[1..];
    forall d: nat ensures d in Ids(tail) <==> d < |rows| && d != oldest.id && MatchedPrimary(rows, email, phoneNumber, rows[d]) {
      if d in Ids(tail) {
        var k :| 0 <= k < |tail| && Ids(tail)[k] == d;
        assert ps[k + 1] in ps;
        assert ps[0].id < ps[k + 1].id;
        RowInIndexed(rows, ps[k + 1]);
      }
      if d < |rows| && d != oldest.id && MatchedPrimary(rows, email, phoneNumber, rows[d]) {
        assert rows[d] in ps;
        var k :| 0 <= k < |ps| && ps[k] == rows[d];
        assert k != 0;
        assert Ids(tail)[k - 1] == d;
      }
    }
  }

  /** In the merge case the call is the merge branch around `oldest`. */
  lemma MergeSurvivor(rows: seq<Contact>, email: Field, phoneNumber: Field, oldest: Contact)
    requires Indexed(rows)
    requires OldestOfSeveral(rows, email, phoneNumber, oldest)
    ensures var ps := MatchedPrimaries(rows, email, phoneNumber);
      && |ps| > 1 && ps[0] == oldest
      && oldest.id < |rows| && rows[oldest.id] == oldest
      && (forall d: nat :: d in Ids(ps[1..]) <==> d < |rows| && d != oldest.id && MatchedPrimary(rows, email, phoneNumber, rows[d]))
      && Identify(rows, email, phoneNumber) == MergeClusters(rows, ps, KnownRequest(rows, email, phoneNumber), email, phoneNumber)
  {
    OldestHeadsPrimaries(rows, email, phoneNumber, oldest);
    DemotedAreOtherPrimaries(rows, email, phoneNumber, oldest);
    KnownRequestIsExactMatch(rows, email, phoneNumber);
  }

  /** When no row matches, one primary carrying the request's fields is added
      and the reply names it alone. */
  lemma NoMatchCreatesPrimary(rows: seq<Contact>, email: Field, phoneNumber: Field)
    requires forall c :: c in rows ==> !Holds(MatchesRequest(email, phoneNumber), c)
    ensures var o := Identify(rows, email, phoneNumber);
      && o.table == rows + [Contact(|rows|, Stored(email), Stored(phoneNumber), Primary, None)]
      && o.reply.Ok?
      && o.reply.value.primaryContactId == |rows|
      && o.reply.value.secondaryContactIds == []
      && o.reply.value.emails == (if Truthy(Stored(email)) then [email.s] else [])
      && o.reply.value.phoneNumbers == (if Truthy(Stored(phoneNumber)) then [phoneNumber.s] else [])
  {
    SelectNone(rows, MatchesRequest(email, phoneNumber));
    var created := Draft(|rows|, email, phoneNumber, Primary, None);
    assert Emails([created] + []) == [created.email];
    assert PhoneNumbers([created] + []) == [created.phoneNumber];
    assert [created.email][..0] == [];
    assert [created.phoneNumber][..0] == [];
    assert Distinct([created.email]) == Push([], created.email);
    assert Distinct([created.phoneNumber]) == Push([], created.phoneNumber);
  }

  /** A request equal on both fields to a row the lookup returns adds no row,
      in the merge case and in the single-primary case alike. */
  lemma KnownRequestCreatesNothing(rows: seq<Contact>, email: Field, phoneNumber: Field)
    requires KnownRequest(rows, email, phoneNumber)
    ensures |Identify(rows, email, phoneNumber).table| == |rows|
  {
    KnownRequestIsExactMatch(rows, email, phoneNumber);
    var c :| c in rows && Holds(MatchesRequest(email, phoneNumber), c) && ExactlyEquals(c, email, phoneNumber);
    assert c in Matching(rows, email, phoneNumber);
  }

  /** With exactly one matched primary the call is the extension branch. */
  lemma SinglePrimary(rows: seq<Contact>, email: Field, phoneNumber: Field, primary: Contact)
    requires Indexed(rows)
    requires MatchedPrimary(rows, email, phoneNumber, primary)
    requires forall c :: MatchedPrimary(rows, email, phoneNumber, c) ==> c == primary
    ensures primary.id < |rows| && rows[primary.id] == primary
    ensures Identify(rows, email, phoneNumber)
            == ExtendCluster(rows, Matching(rows, email, phoneNumber), primary, KnownRequest(rows, email, phoneNumber), email, phoneNumber)
  {
    var ms := Matching(rows, email, phoneNumber);
    assert primary in ms;
    forall c | c in ms && Holds(IsPrimary, c) ensures c == primary {
      assert MatchedPrimary(rows, email, phoneNumber, c);
    }
    SelectSingleton(ms, IsPrimary, primary);
    RowInIndexed(rows, primary);
    KnownRequestIsExactMatch(rows, email, phoneNumber);
  }

  /** The single-primary branch replies with that primary and, as its
      secondaries, the other matched rows followed by the new row if one was
      added. */
  lemma ExtendClusterReply(rows: seq<Contact>, contacts: seq<Contact>, primary: Contact, exact: bool, email: Field, phoneNumber: Field)
    requires primary.id < |rows|
    ensures var r := ExtendCluster(rows, contacts, primary, exact, email, phoneNumber).reply.value;
      && r.primaryContactId == primary.id
      && r.secondaryContactIds == Ids(Select(contacts, NotId(primary.id))) + (if exact then [] else [|rows|])
  {
    if !exact {
      var created := Draft(|rows|, email, phoneNumber, Secondary, Some(primary.id));
      assert ExtendCluster(rows, contacts, primary, exact, email, phoneNumber).reply.value
             == Project(primary, Select(contacts + [created], NotId(primary.id)));
      IdsAfterPush(contacts, created, primary.id);
    }
  }

  /** With one matched primary and no exact match, exactly one secondary is
      added, linked to that primary and carrying the request's fields; the
      reply lists the other matched rows and the new one, not the whole
      cluster. */
  lemma SinglePrimaryGainsSecondary(rows: seq<Contact>, email: Field, phoneNumber: Field, primary: Contact)
    requires Indexed(rows)
    requires MatchedPrimary(rows, email, phoneNumber, primary)
    requires forall c :: MatchedPrimary(rows, email, phoneNumber, c) ==> c == primary
    requires !KnownRequest(rows, email, phoneNumber)
    ensures var o := Identify(rows, email, phoneNumber);
      var created := Contact(|rows|, Stored(email), Stored(phoneNumber), Secondary, Some(primary.id));
      && o.table == rows + [created]
      && o.reply.Ok?
      && o.reply.value.primaryContactId == primary.id
      && o.reply.value.secondaryContactIds
         == Ids(Select(Matching(rows, email, phoneNumber), NotId(primary.id))) + [|rows|]
  {
    SinglePrimary(rows, email, phoneNumber, primary);
    ExtendClusterReply(rows, Matching(rows, email, phoneNumber), primary, false, email, phoneNumber);
  }

  /** With one matched primary and an exact match, the table is unchanged and
      the reply lists the other matched rows. */
  lemma SinglePrimaryKnownRequest(rows: seq<Contact>, email: Field, phoneNumber: Field, primary: Contact)
    requires Indexed(rows)
    requires MatchedPrimary(rows, email, phoneNumber, primary)
    requires forall c :: MatchedPrimary(rows, email, phoneNumber, c) ==> c == primary
    requires KnownRequest(rows, email, phoneNumber)
    ensures var o := Identify(rows, email, phoneNumber);
      && o.table == rows
      && o.reply.Ok?
      && o.reply.value.primaryContactId == primary.id
      && o.reply.value.secondaryContactIds == Ids(Select(Matching(rows, email, phoneNumber), NotId(primary.id)))
  {
    SinglePrimary(rows, email, phoneNumber, primary);
    ExtendClusterReply(rows, Matching(rows, email, phoneNumber), primary, true, email, phoneNumber);
  }

  /** When the lookup returns only secondaries the call fails and writes
      nothing. */
  lemma OnlySecondariesMatchedFails(rows: seq<Contact>, email: Field, phoneNumber: Field)
    requires exists c :: c in rows && Holds(MatchesRequest(email, phoneNumber), c)
    requires forall c :: c in rows && Holds(MatchesRequest(email, phoneNumber), c) ==> c.linkPrecedence == Secondary
    ensures Identify(rows, email, phoneNumber) == Outcome(Err(PrimaryUndefined), rows)
  {
    var c :| c in rows && Holds(MatchesRequest(email, phoneNumber), c);
    var ms := Matching(rows, email, phoneNumber);
    assert c in ms;
    assert forall x :: x in ms ==> !Holds(IsPrimary, x);
    SelectNone(ms, IsPrimary);
  }

  /** Merge case: the earliest-created matched primary survives as primary
      and is the reply's primary; every other matched primary becomes its
      secondary. */
  lemma MergeKeepsOldestPrimary(rows: seq<Contact>, email: Field, phoneNumber: Field, oldest: Contact)
    requires Indexed(rows)
    requires OldestOfSeveral(rows, email, phoneNumber, oldest)
    ensures oldest.id < |rows|
    ensures var o := Identify(rows, email, phoneNumber);
      && o.reply.Ok?
      && o.reply.value.primaryContactId == oldest.id
      && o.table[oldest.id].linkPrecedence == Primary
      && (WellLinked(rows) ==> o.table[oldest.id] == oldest)
      && (forall c :: MatchedPrimary(rows, email, phoneNumber, c) && c != oldest ==>
            c.id < |rows| && o.table[c.id].linkPrecedence == Secondary && o.table[c.id].linkedId == Some(oldest.id))
  {
    MergeSurvivor(rows, email, phoneNumber, oldest);
    var o := Identify(rows, email, phoneNumber);
    var demoted := Ids(MatchedPrimaries(rows, email, phoneNumber)[1..]);
    assert o.table[oldest.id] == MergedRow(oldest, oldest.id, demoted);
    assert WellLinked(rows) ==> rows[oldest.id].linkedId == None;
    forall c | MatchedPrimary(rows, email, phoneNumber, c) && c != oldest
      ensures c.id < |rows| && o.table[c.id].linkPrecedence == Secondary && o.table[c.id].linkedId == Some(oldest.id)
    {
      RowInIndexed(rows, c);
      assert c.id in demoted;
      assert o.table[c.id] == MergedRow(c, oldest.id, demoted);
    }
  }

  /** The merge branch on its table: no row links to a demoted primary any
      more, every row that did links to the survivor, and every row neither
      demoted nor linked to a demoted primary is unchanged. */
  lemma MergeClustersRelinks(rows: seq<Contact>, primaries: seq<Contact>, exact: bool, email: Field, phoneNumber: Field)
    requires |primaries| > 1 && primaries[0].id !in Ids(primaries[1..])
    ensures var t := MergeClusters(rows, primaries, exact, email, phoneNumber).table;
      var demoted := Ids(primaries[1..]);
      && (forall i, d :: 0 <= i < |t| && d in demoted ==> t[i].linkedId != Some(d))
      && (forall i :: 0 <= i < |rows| && rows[i].linkedId.Some? && rows[i].linkedId.value in demoted ==>
            t[i].linkedId == Some(primaries[0].id))
      && (forall i :: 0 <= i < |rows| && rows[i].id !in demoted && !(rows[i].linkedId.Some? && rows[i].linkedId.value in demoted) ==>
            t[i] == rows[i])
  {
    var t := MergeClusters(rows, primaries, exact, email, phoneNumber).table;
    var s := primaries[0].id;
    var demoted := Ids(primaries[1..]);
    forall i | 0 <= i < |rows| ensures t[i] == MergedRow(rows[i], s, demoted) {
    }
    assert |rows| < |t| ==> t[|rows|].linkedId == Some(s);
  }

  /** Merge case: afterwards no row links to a demoted primary, and every row
      that did now links to the survivor. */
  lemma MergeLeavesNoDanglingLinks(rows: seq<Contact>, email: Field, phoneNumber: Field, oldest: Contact)
    requires Indexed(rows)
    requires OldestOfSeveral(rows, email, phoneNumber, oldest)
    ensures var o := Identify(rows, email, phoneNumber);
      && (forall i, c :: 0 <= i < |o.table| && MatchedPrimary(rows, email, phoneNumber, c) && c != oldest ==>
            o.table[i].linkedId != Some(c.id))
      && (forall i, c :: 0 <= i < |rows| && MatchedPrimary(rows, email, phoneNumber, c) && c != oldest ==>
            rows[i].linkedId == Some(c.id) ==> o.table[i].linkedId == Some(oldest.id))
  {
    MergeSurvivor(rows, email, phoneNumber, oldest);
    var ps := MatchedPrimaries(rows, email, phoneNumber);
    MergeClustersRelinks(rows, ps, KnownRequest(rows, email, phoneNumber), email, phoneNumber);
    forall c | MatchedPrimary(rows, email, phoneNumber, c) && c != oldest ensures c.id in Ids(ps[1..]) {
      RowInIndexed(rows, c);
    }
  }

  /** Merge case: a row that is neither another matched primary nor linked to
      one is left exactly as it was. */
  lemma MergeLeavesOtherRows(rows: seq<Contact>, email: Field, phoneNumber: Field, oldest: Contact)
    requires Indexed(rows)
    requires OldestOfSeveral(rows, email, phoneNumber, oldest)
    ensures var o := Identify(rows, email, phoneNumber);
      forall i :: 0 <= i < |rows| && !Absorbed(rows, email, phoneNumber, oldest, rows[i]) ==> o.table[i] == rows[i]
  {
    MergeSurvivor(rows, email, phoneNumber, oldest);
    var ps := MatchedPrimaries(rows, email, phoneNumber);
    var demoted := Ids(ps[1..]);
    MergeClustersRelinks(rows, ps, KnownRequest(rows, email, phoneNumber), email, phoneNumber);
    forall i | 0 <= i < |rows| && !Absorbed(rows, email, phoneNumber, oldest, rows[i])
      ensures rows[i].id !in demoted && !(rows[i].linkedId.Some? && rows[i].linkedId.value in demoted)
    {
      assert rows[i].id == i;
      forall d: nat | d in demoted ensures rows[d].id == d && rows[d] != oldest && MatchedPrimary(rows, email, phoneNumber, rows[d]) {
      }
    }
  }

  /** The merge branch replies with the survivor and, as its secondaries,
      every row of the new table linked to it, in creation order. */
  lemma MergeClustersReply(rows: seq<Contact>, primaries: seq<Contact>, exact: bool, email: Field, phoneNumber: Field)
    requires |primaries| > 1 && primaries[0].id < |rows|
    ensures var o := MergeClusters(rows, primaries, exact, email, phoneNumber);
      && o.reply.value.primaryContactId == primaries[0].id
      && o.reply.value.secondaryContactIds == Ids(Select(o.table, SecondaryOf(primaries[0].id)))
  {
    var s := primaries[0].id;
    var merged := Merge(rows, s, Ids(primaries[1..]));
    var linked := Select(merged, InCluster(s));
    SelectTwice(merged, InCluster(s), NotId(s), SecondaryOf(s));
    if !exact {
      var created := Draft(|merged|, email, phoneNumber, Secondary, Some(s));
      SelectAppend(linked, [created], NotId(s));
      SelectAppend(merged, [created], SecondaryOf(s));
      SelectOne(created, NotId(s));
      SelectOne(created, SecondaryOf(s));
    }
  }

  /** Merge case: the reply's secondaries are exactly the rows of the new
      table linked to the survivor, in creation order (the new secondary, if
      any, last). */
  lemma MergeReplyListsCluster(rows: seq<Contact>, email: Field, phoneNumber: Field, oldest: Contact)
    requires Indexed(rows)
    requires OldestOfSeveral(rows, email, phoneNumber, oldest)
    ensures var o := Identify(rows, email, phoneNumber);
      && o.reply.Ok?
      && o.reply.value.primaryContactId == oldest.id
      && o.reply.value.secondaryContactIds == Ids(Select(o.table, SecondaryOf(oldest.id)))
      && (KnownRequest(rows, email, phoneNumber) <==> |o.table| == |rows|)
      && (!KnownRequest(rows, email, phoneNumber) ==>
            o.table[|rows|] == Contact(|rows|, Stored(email), Stored(phoneNumber), Secondary, Some(oldest.id)))
  {
    MergeSurvivor(rows, email, phoneNumber, oldest);
    MergeClustersReply(rows, MatchedPrimaries(rows, email, phoneNumber), KnownRequest(rows, email, phoneNumber), email, phoneNumber);
  }

  /** The merge branch only demotes and re-links existing rows, and appends
      at most one row carrying the request's fields. */
  lemma MergeClustersKeepsFields(rows: seq<Contact>, primaries: seq<Contact>, exact: bool, email: Field, phoneNumber: Field)
    requires |primaries| > 1
    ensures var t := MergeClusters(rows, primaries, exact, email, phoneNumber).table;
      && (forall i :: 0 <= i < |rows| ==>
            && t[i].id == rows[i].id
            && t[i].email == rows[i].email
            && t[i].phoneNumber == rows[i].phoneNumber
            && (rows[i].linkPrecedence == Secondary ==> t[i].linkPrecedence == Secondary))
      && (|t| == |rows| + 1 ==>
            t[|rows|].id == |rows| && t[|rows|].email == Stored(email) && t[|rows|].phoneNumber == Stored(phoneNumber))
  {
    var t := MergeClusters(rows, primaries, exact, email, phoneNumber).table;
    forall i | 0 <= i < |rows| ensures t[i] == MergedRow(rows[i], primaries[0].id, Ids(primaries[1..])) {
    }
  }

  /** One call never removes a row or edits its id, email or phone number,
      never promotes a secondary, and appends at most one row, which carries
      the request's fields. */
  lemma IdentifyOnlyAppendsAndRelinks(rows: seq<Contact>, email: Field, phoneNumber: Field)
    ensures var o := Identify(rows, email, phoneNumber);
      && (forall i :: 0 <= i < |rows| ==>
            && o.table[i].id == rows[i].id
            && o.table[i].email == rows[i].email
            && o.table[i].phoneNumber == rows[i].phoneNumber
            && (rows[i].linkPrecedence == Secondary ==> o.table[i].linkPrecedence == Secondary))
      && (|o.table| == |rows| + 1 ==>
            o.table[|rows|].id == |rows| && o.table[|rows|].email == Stored(email)
            && o.table[|rows|].phoneNumber == Stored(phoneNumber))
  {
    var ms := Matching(rows, email, phoneNumber);
    var ps := Select(ms, IsPrimary);
    var exact := HasExactMatch(ms, email, phoneNumber);
    if ms != [] && |ps| > 1 {
      MergeClustersKeepsFields(rows, ps, exact, email, phoneNumber);
    }
  }

  /** Ids stay equal to creation positions. */
  lemma IdentifyKeepsIndexed(rows: seq<Contact>, email: Field, phoneNumber: Field)
    requires Indexed(rows)
    ensures Indexed(Identify(rows, email, phoneNumber).table)
  {
    IdentifyOnlyAppendsAndRelinks(rows, email, phoneNumber);
  }

  /** The merge branch keeps links one hop when the survivor is a primary
      that is not itself demoted. */
  lemma MergeClustersKeepsLinksOneHop(rows: seq<Contact>, primaries: seq<Contact>, exact: bool, email: Field, phoneNumber: Field)
    requires Indexed(rows) && WellLinked(rows) && |primaries| > 1
    requires primaries[0].id < |rows| && rows[primaries[0].id].linkPrecedence == Primary
    requires primaries[0].id !in Ids(primaries[1..])
    ensures WellLinked(MergeClusters(rows, primaries, exact, email, phoneNumber).table)
  {
    var t := MergeClusters(rows, primaries, exact, email, phoneNumber).table;
    var s := primaries[0].id;
    var demoted := Ids(primaries[1..]);
    assert t[s] == rows[s];
    forall i | 0 <= i < |t|
      ensures match t[i].linkedId
        case None => t[i].linkPrecedence == Primary
        case Some(p) => t[i].linkPrecedence == Secondary && p < |t| && t[p].linkPrecedence == Primary
    {
      if i < |rows| && rows[i].id !in demoted && rows[i].linkedId.Some? && rows[i].linkedId.value !in demoted {
        var p := rows[i].linkedId.value;
        assert t[p] == MergedRow(rows[p], s, demoted);
      }
    }
  }

  /** The single-primary branch keeps links one hop when its primary is a
      primary row of the table. */
  lemma ExtendClusterKeepsLinksOneHop(rows: seq<Contact>, contacts: seq<Contact>, primary: Contact, exact: bool, email: Field, phoneNumber: Field)
    requires WellLinked(rows)
    requires primary.id < |rows| && rows[primary.id].linkPrecedence == Primary
    ensures WellLinked(ExtendCluster(rows, contacts, primary, exact, email, phoneNumber).table)
  {
  }

  /** One-hop links survive every call: the survivor stays a primary, the
      demoted primaries and their secondaries point straight at it, and a new
      secondary points at a primary. */
  lemma IdentifyKeepsLinksOneHop(rows: seq<Contact>, email: Field, phoneNumber: Field)
    requires Indexed(rows) && WellLinked(rows)
    ensures WellLinked(Identify(rows, email, phoneNumber).table)
  {
    var ms := Matching(rows, email, phoneNumber);
    var ps := Select(ms, IsPrimary);
    var exact := HasExactMatch(ms, email, phoneNumber);
    if ms != [] && |ps| > 1 {
      var oldest := ps[0];
      assert oldest in ps;
      assert ps[1] in ps;
      assert ps[1].id != oldest.id;
      assert MatchedPrimary(rows, email, phoneNumber, ps[1]);
      forall c | MatchedPrimary(rows, email, phoneNumber, c) ensures oldest.id <= c.id {
        assert c in ps;
      }
      assert OldestOfSeveral(rows, email, phoneNumber, oldest);
      MergeSurvivor(rows, email, phoneNumber, oldest);
      KnownRequestIsExactMatch(rows, email, phoneNumber);
      MergeClustersKeepsLinksOneHop(rows, ps, exact, email, phoneNumber);
    } else if ms != [] && |ps| == 1 {
      assert ps[0] in ps;
      RowInIndexed(rows, ps[0]);
      ExtendClusterKeepsLinksOneHop(rows, ms, ps[0], exact, email, phoneNumber);
    }
  }

  /** Repeating a request whose fields are both given (a non-empty string or
      an explicit null) adds no further row. */
  lemma RepeatedRequestCreatesNothing(rows: seq<Contact>, email: Field, phoneNumber: Field)
    requires email.Null? || (email.Text? && email.s != "")
    requires phoneNumber.Null? || (phoneNumber.Text? && phoneNumber.s != "")
    ensures var after := Identify(rows, email, phoneNumber).table;
      |Identify(after, email, phoneNumber).table| == |after|
  {
    var o := Identify(rows, email, phoneNumber);
    IdentifyOnlyAppendsAndRelinks(rows, email, phoneNumber);
    KnownRequestIsExactMatch(rows, email, phoneNumber);
    if |o.table| == |rows| + 1 {
      var created := o.table[|rows|];
      assert created in o.table;
      assert Holds(MatchesRequest(email, phoneNumber), created) && ExactlyEquals(created, email, phoneNumber);
      KnownRequestCreatesNothing(o.table, email, phoneNumber);
    } else if o.reply.Err? {
      assert o.table == rows;
    } else {
      assert KnownRequest(rows, email, phoneNumber);
      var c :| c in rows && Holds(MatchesRequest(email, phoneNumber), c) && ExactlyEquals(c, email, phoneNumber);
      var i :| 0 <= i < |rows| && rows[i] == c;
      assert o.table[i] in o.table;
      assert Holds(MatchesRequest(email, phoneNumber), o.table[i]) && ExactlyEquals(o.table[i], email, phoneNumber);
      KnownRequestCreatesNothing(o.table, email, phoneNumber);
    }
  }

  /** A request that leaves the phone number out matches every row whose
      phone number is null, so a new email joins an unrelated contact. */
  lemma MissingFieldJoinsUnrelatedContact()
    ensures var rows := [Contact(0, Some("a@x.io"), None, Primary, None)];
      Identify(rows, Text("b@x.io"), Undefined).table
      == rows + [Contact(1, Some("b@x.io"), None, Secondary, Some(0))]
  {
    var rows := [Contact(0, Some("a@x.io"), None, Primary, None)];
    assert rows[0] in rows;
    assert !KnownRequest(rows, Text("b@x.io"), Undefined);
    SinglePrimaryGainsSecondary(rows, Text("b@x.io"), Undefined, rows[0]);
  }

  /** A request that leaves the email out is never an exact match (missing is
      not identical to null), so sending it twice adds two rows. */
  lemma RepeatWithMissingFieldGrows()
    ensures var first := Identify([], Undefined, Text("555")).table;
      && first == [Contact(0, None, Some("555"), Primary, None)]
      && Identify(first, Undefined, Text("555")).table
         == first + [Contact(1, None, Some("555"), Secondary, Some(0))]
  {
    var first := Identify([], Undefined, Text("555")).table;
    NoMatchCreatesPrimary([], Undefined, Text("555"));
    assert first[0] in first;
    assert !KnownRequest(first, Undefined, Text("555"));
    SinglePrimaryGainsSecondary(first, Undefined, Text("555"), first[0]);
  }

  /** A matched secondary survives the filter that drops the primary. */
  lemma StrayIsListed(rows: seq<Contact>, email: Field, phoneNumber: Field, primary: Contact, stray: Contact)
    requires Indexed(rows)
    requires MatchedPrimary(rows, email, phoneNumber, primary)
    requires stray in rows && Holds(MatchesRequest(email, phoneNumber), stray)
    requires stray.linkPrecedence == Secondary
    ensures stray.id in Ids(Select(Matching(rows, email, phoneNumber), NotId(primary.id)))
  {
    RowInIndexed(rows, stray);
    RowInIndexed(rows, primary);
    var others := Select(Matching(rows, email, phoneNumber), NotId(primary.id));
    assert stray in others;
    IdOfMember(others, stray);
  }

  /** A matched secondary does not bring its primary into the merge: with a
      single matched primary, a matched secondary of another cluster leaves
      that cluster's primary untouched, no existing row changes, and the
      secondary is still listed among the secondaries of the matched
      primary. */
  lemma MatchedSecondaryDoesNotMerge(rows: seq<Contact>, email: Field, phoneNumber: Field, primary: Contact, stray: Contact)
    requires Indexed(rows)
    requires MatchedPrimary(rows, email, phoneNumber, primary)
    requires forall c :: MatchedPrimary(rows, email, phoneNumber, c) ==> c == primary
    requires stray in rows && Holds(MatchesRequest(email, phoneNumber), stray)
    requires stray.linkPrecedence == Secondary && stray.linkedId != Some(primary.id)
    ensures var o := Identify(rows, email, phoneNumber);
      && o.table[..|rows|] == rows
      && o.reply.Ok?
      && o.reply.value.primaryContactId == primary.id
      && stray.id in o.reply.value.secondaryContactIds
  {
    SinglePrimary(rows, email, phoneNumber, primary);
    var ms := Matching(rows, email, phoneNumber);
    var o := Identify(rows, email, phoneNumber);
    assert o.table[..|rows|] == rows;
    ExtendClusterReply(rows, ms, primary, KnownRequest(rows, email, phoneNumber), email, phoneNumber);
    StrayIsListed(rows, email, phoneNumber, primary, stray);
  }
}
