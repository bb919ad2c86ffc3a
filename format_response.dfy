/** The response projection `formatResponse`: a primary contact and an
    ordered list of secondaries become the consolidated contact view. */
module Projection {
  import opened ContactModel

  datatype Response = Response(
    primaryContactId: nat,
    emails: seq<string>,
    phoneNumbers: seq<string>,
    secondaryContactIds: seq<nat>)

  predicate NoDuplicates(xs: seq<string>)
  {
    forall i, j :: 0 <= i < j < |xs| ==> xs[i] != xs[j]
  }

  /** Every value of `r` is first seen in `vs` before any occurrence of each
      value listed after it in `r`. */
  ghost predicate FirstOccurrenceOrder(r: seq<string>, vs: seq<Option<string>>)
  {
    forall i, j, k :: 0 <= i < j < |r| && 0 <= k < |vs| && vs[k] == Some(r[j]) ==> Some(r[i]) in vs[..k]
  }

  /** One step of the collecting loop: push a truthy value not yet listed. */
  function Push(acc: seq<string>, v: Option<string>): seq<string>
  {
    if Truthy(v) && v.value !in acc then acc + [v.value] else acc
  }

  /** The values the collecting loop has gathered after visiting `vs` in order. */
  function Distinct(vs: seq<Option<string>>): seq<string>
    decreases |vs|
  {
    if vs == [] then [] else Push(Distinct(vs[..|vs| - 1]), vs[|vs| - 1])
  }

  function Emails(cs: seq<Contact>): (vs: seq<Option<string>>)
    ensures |vs| == |cs|
    ensures forall i :: 0 <= i < |cs| ==> vs[i] == cs[i].email
  {
    seq(|cs|, i requires 0 <= i < |cs| => cs[i].email)
  }

  function PhoneNumbers(cs: seq<Contact>): (vs: seq<Option<string>>)
    ensures |vs| == |cs|
    ensures forall i :: 0 <= i < |cs| ==> vs[i] == cs[i].phoneNumber
  {
    seq(|cs|, i requires 0 <= i < |cs| => cs[i].phoneNumber)
  }

  /** The response `formatResponse(primary, secondaries)` builds. */
  function Project(primary: Contact, secondaries: seq<Contact>): Response
  {
    Response(
      primary.id,
      Distinct(Emails([primary] + secondaries)),
      Distinct(PhoneNumbers([primary] + secondaries)),
      Ids(secondaries))
  }

  /** The collected list has no duplicates and no empty string, holds exactly
      the truthy values of `vs`, and lists them by first occurrence. */
  lemma {:induction false} DistinctSpec(vs: seq<Option<string>>)
    ensures NoDuplicates(Distinct(vs))
    ensures forall s :: s in Distinct(vs) <==> s != "" && Some(s) in vs
    ensures FirstOccurrenceOrder(Distinct(vs), vs)
  {
    if vs != [] {
      var init, v := vs[..|vs| - 1], vs[|vs| - 1];
      assert vs == init + [v];
      DistinctSpec(init);
      var r0, r := Distinct(init), Distinct(vs);
      forall s ensures s in r <==> s != "" && Some(s) in vs {
        assert Some(s) in vs <==> Some(s) in init || v == Some(s);
      }
      forall i, j, k | 0 <= i < j < |r| && 0 <= k < |vs| && vs[k] == Some(r[j])
        ensures Some(r[i]) in vs[..k]
      {
        if k < |init| {
          assert vs[..k] == init[..k];
          if j < |r0| {
            assert init[k] == Some(r0[j]);
          } else {
            // r[j] is the value pushed by the last step, absent from `init`
            assert false;
          }
        } else {
          assert vs[..k] == init;
          assert r[i] in r0;
        }
      }
    }
  }

  /** A truthy first value heads the collected list. */
  lemma DistinctHead(vs: seq<Option<string>>)
    requires |vs| > 0 && Truthy(vs[0])
    ensures |Distinct(vs)| > 0 && Distinct(vs)[0] == vs[0].value
  {
    DistinctSpec(vs);
    var r := Distinct(vs);
    assert vs[0].value in r;
    var m :| 0 <= m < |r| && r[m] == vs[0].value;
    assert vs[..0] == [];
    forall j | 0 < j < |r| ensures vs[0] != Some(r[j]) {
      assert Some(r[0]) !in vs[..0];
    }
    assert m == 0;
  }

  /** A value is among the emails of a primary and its secondaries exactly
      when the primary or one of the secondaries has it. */
  lemma EmailsOfCluster(primary: Contact, secondaries: seq<Contact>, s: string)
    ensures Some(s) in Emails([primary] + secondaries)
            <==> primary.email == Some(s) || exists c :: c in secondaries && c.email == Some(s)
  {
    var all := [primary] + secondaries;
    var vs := Emails(all);
    if Some(s) in vs {
      var i :| 0 <= i < |vs| && vs[i] == Some(s);
      assert i > 0 ==> all[i] == secondaries[i - 1];
    }
    if c :| c in secondaries && c.email == Some(s) {
      var i :| 0 <= i < |secondaries| && secondaries[i] == c;
      assert all[i + 1] == c;
      assert vs[i + 1] == Some(s);
    }
    assert vs[0] == primary.email;
  }

  /** A value is among the phone numbers of a primary and its secondaries
      exactly when the primary or one of the secondaries has it. */
  lemma PhoneNumbersOfCluster(primary: Contact, secondaries: seq<Contact>, s: string)
    ensures Some(s) in PhoneNumbers([primary] + secondaries)
            <==> primary.phoneNumber == Some(s) || exists c :: c in secondaries && c.phoneNumber == Some(s)
  {
    var all := [primary] + secondaries;
    var vs := PhoneNumbers(all);
    if Some(s) in vs {
      var i :| 0 <= i < |vs| && vs[i] == Some(s);
      assert i > 0 ==> all[i] == secondaries[i - 1];
    }
    if c :| c in secondaries && c.phoneNumber == Some(s) {
      var i :| 0 <= i < |secondaries| && secondaries[i] == c;
      assert all[i + 1] == c;
      assert vs[i + 1] == Some(s);
    }
    assert vs[0] == primary.phoneNumber;
  }

  lemma ProjectSpec(primary: Contact, secondaries: seq<Contact>)
    ensures var r := Project(primary, secondaries);
      && r.primaryContactId == primary.id
      && |r.secondaryContactIds| == |secondaries|
      && (forall i :: 0 <= i < |secondaries| ==> r.secondaryContactIds[i] == secondaries[i].id)
      && NoDuplicates(r.emails) && NoDuplicates(r.phoneNumbers)
      && (forall s :: s in r.emails <==>
            s != "" && (primary.email == Some(s) || exists c :: c in secondaries && c.email == Some(s)))
      && (forall s :: s in r.phoneNumbers <==>
            s != "" && (primary.phoneNumber == Some(s) || exists c :: c in secondaries && c.phoneNumber == Some(s)))
      && (Truthy(primary.email) ==> |r.emails| > 0 && r.emails[0] == primary.email.value)
      && (Truthy(primary.phoneNumber) ==> |r.phoneNumbers| > 0 && r.phoneNumbers[0] == primary.phoneNumber.value)
      && FirstOccurrenceOrder(r.emails, Emails([primary] + secondaries))
      && FirstOccurrenceOrder(r.phoneNumbers, PhoneNumbers([primary] + secondaries))
  {
    var all := [primary] + secondaries;
    DistinctSpec(Emails(all));
    DistinctSpec(PhoneNumbers(all));
    forall s ensures Some(s) in Emails(all) <==> primary.email == Some(s) || exists c :: c in secondaries && c.email == Some(s) {
      EmailsOfCluster(primary, secondaries, s);
    }
    forall s ensures Some(s) in PhoneNumbers(all) <==> primary.phoneNumber == Some(s) || exists c :: c in secondaries && c.phoneNumber == Some(s) {
      PhoneNumbersOfCluster(primary, secondaries, s);
    }
    if Truthy(primary.email) { DistinctHead(Emails(all)); }
    if Truthy(primary.phoneNumber) { DistinctHead(PhoneNumbers(all)); }
  }

  /** `formatResponse`: the primary's values first, then a loop over the
      secondaries that pushes each truthy value not already listed. */
  method FormatResponse(primary: Contact, secondaries: seq<Contact>) returns (r: Response)
    ensures r == Project(primary, secondaries)
  {
    var emails: seq<string> := [];
    var phoneNumbers: seq<string> := [];
    if Truthy(primary.email) { emails := emails + [primary.email.value]; }
    if Truthy(primary.phoneNumber) { phoneNumbers := phoneNumbers + [primary.phoneNumber.value]; }
    assert [primary] + secondaries[..0] == [primary];
    assert Emails([primary])[..0] == [];
    assert PhoneNumbers([primary])[..0] == [];
    for i := 0 to |secondaries|
      invariant emails == Distinct(Emails([primary] + secondaries[..i]))
      invariant phoneNumbers == Distinct(PhoneNumbers([primary] + secondaries[..i]))
    {
      var c := secondaries[i];
      ghost var seen := [primary] + secondaries[..i];
      assert [primary] + secondaries[..i + 1] == seen + [c];
      assert Emails(seen + [c]) == Emails(seen) + [c.email];
      assert PhoneNumbers(seen + [c]) == PhoneNumbers(seen) + [c.phoneNumber];
      assert (Emails(seen) + [c.email])[..|seen|] == Emails(seen);
      assert (PhoneNumbers(seen) + [c.phoneNumber])[..|seen|] == PhoneNumbers(seen);
      if Truthy(c.email) && c.email.value !in emails {
        emails := emails + [c.email.value];
      }
      if Truthy(c.phoneNumber) && c.phoneNumber.value !in phoneNumbers {
        phoneNumbers := phoneNumbers + [c.phoneNumber.value];
      }
    }
    assert secondaries[..|secondaries|] == secondaries;
    r := Response(primary.id, emails, phoneNumbers, Ids(secondaries));
  }
}
