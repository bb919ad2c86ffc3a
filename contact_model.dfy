/** The Contact record the reconciliation service reads and writes, the
    request fields it receives, and the row selections it performs (the
    `where` clauses of its queries and the predicates of its array filters). */
module ContactModel {

  datatype Option<T> = None | Some(value: T)

  /** A request field as it reaches the service from a JSON body: missing
      (`undefined`), an explicit `null`, or a string (possibly empty). */
  datatype Field = Undefined | Null | Text(s: string)

  datatype Precedence = Primary | Secondary

  /** One row of the contact table. `createdAt` is not kept: rows are held in
      creation order and `id` is the row's position (see `Indexed`). */
  datatype Contact = Contact(
    id: nat,
    email: Option<string>,
    phoneNumber: Option<string>,
    linkPrecedence: Precedence,
    linkedId: Option<nat>)

  /** The column value written when a row is created from a request field:
      both `undefined` and `null` are stored as NULL, a string as itself. */
  function Stored(f: Field): (v: Option<string>)
    ensures v.Some? <==> f.Text?
    ensures f.Text? ==> v.value == f.s
  {
    match f
    case Text(s) => Some(s)
    case _ => None
  }

  /** The value `field || null` used in the lookup query: every falsy request
      field (missing, null or the empty string) becomes NULL, which the query
      compares with `IS NULL`. */
  function QueryValue(f: Field): (v: Option<string>)
    ensures v.Some? <==> f.Text? && f.s != ""
    ensures v.Some? ==> v.value == f.s
  {
    if f.Text? && f.s != "" then Some(f.s) else None
  }

  /** JavaScript strict equality between a column read back from the table
      (NULL or a string) and a request field. A missing request field is
      `undefined`, which is never identical to a NULL column. */
  predicate StrictEquals(v: Option<string>, f: Field)
  {
    match f
    case Undefined => false
    case Null => v.None?
    case Text(s) => v == Some(s)
  }

  /** JavaScript truthiness of a column value: present and non-empty. */
  predicate Truthy(v: Option<string>)
  {
    v.Some? && v.value != ""
  }

  /** The store's own invariant: ids are assigned in creation order, so the
      row at position `i` has id `i`. */
  predicate Indexed(rows: seq<Contact>)
  {
    forall i :: 0 <= i < |rows| ==> rows[i].id == i
  }

  /** Rows listed oldest first with distinct ids. */
  predicate AscendingIds(cs: seq<Contact>)
  {
    forall i, j :: 0 <= i < j < |cs| ==> cs[i].id < cs[j].id
  }

  function Ids(cs: seq<Contact>): (ids: seq<nat>)
    ensures |ids| == |cs|
    ensures forall i :: 0 <= i < |cs| ==> ids[i] == cs[i].id
  {
    if cs == [] then [] else [cs[0].id] + Ids(cs[1..])
  }

  lemma IdOfMember(cs: seq<Contact>, c: Contact)
    requires c in cs
    ensures c.id in Ids(cs)
  {
    var k :| 0 <= k < |cs| && cs[k] == c;
    assert Ids(cs)[k] == c.id;
  }

  /** Row predicates used by the service: the lookup by email or phone
      number, the primaries among the matched rows, a primary and the rows
      linked to it, every row but one id, and the rows linked to a primary
      other than the primary itself. */
  datatype Criterion =
    | MatchesRequest(email: Field, phoneNumber: Field)
    | IsPrimary
    | InCluster(root: nat)
    | NotId(excluded: nat)
    | SecondaryOf(owner: nat)

  predicate Holds(k: Criterion, c: Contact)
  {
    match k
    case MatchesRequest(e, p) => c.email == QueryValue(e) || c.phoneNumber == QueryValue(p)
    case IsPrimary => c.linkPrecedence == Primary
    case InCluster(root) => c.id == root || c.linkedId == Some(root)
    case NotId(x) => c.id != x
    case SecondaryOf(owner) => c.linkedId == Some(owner) && c.id != owner
  }

  /** The rows of `cs` satisfying `k`, in their original order. */
  function Select(cs: seq<Contact>, k: Criterion): (r: seq<Contact>)
    ensures |r| <= |cs|
    ensures forall c :: c in r <==> c in cs && Holds(k, c)
    ensures AscendingIds(cs) ==> AscendingIds(r)
  {
    if cs == [] then []
    else
      var rest := Select(cs[1..], k);
      assert AscendingIds(cs) ==> forall j :: 0 <= j < |rest| ==> cs[0].id < rest[j].id by {
        if AscendingIds(cs) {
          forall j | 0 <= j < |rest| ensures cs[0].id < rest[j].id {
            assert rest[j] in cs[1..];
            var m :| 0 <= m < |cs| - 1 && cs[1..][m] == rest[j];
            assert cs[m + 1] == rest[j];
          }
        }
      }
      if Holds(k, cs[0]) then [cs[0]] + rest else rest
  }

  lemma {:induction false} SelectAppend(a: seq<Contact>, b: seq<Contact>, k: Criterion)
    ensures Select(a + b, k) == Select(a, k) + Select(b, k)
  {
    if a == [] {
      assert a + b == b;
    } else {
      assert (a + b)[0] == a[0];
      assert (a + b)[1..] == a[1..] + b;
      SelectAppend(a[1..], b, k);
    }
  }

  /** Filtering twice is filtering once by the conjunction. */
  lemma {:induction false} SelectTwice(cs: seq<Contact>, k1: Criterion, k2: Criterion, both: Criterion)
    requires forall c :: Holds(both, c) <==> Holds(k1, c) && Holds(k2, c)
    ensures Select(Select(cs, k1), k2) == Select(cs, both)
  {
    if cs != [] {
      SelectTwice(cs[1..], k1, k2, both);
    }
  }

  lemma {:induction false} SelectNone(cs: seq<Contact>, k: Criterion)
    requires forall c :: c in cs ==> !Holds(k, c)
    ensures Select(cs, k) == []
  {
    if cs != [] {
      assert forall c :: c in cs[1..] ==> c in cs;
      SelectNone(cs[1..], k);
    }
  }

  lemma SelectOne(c: Contact, k: Criterion)
    ensures Select([c], k) == if Holds(k, c) then [c] else []
  {
    assert [c][1..] == [];
  }

  lemma {:induction false} IdsAppend(a: seq<Contact>, b: seq<Contact>)
    ensures Ids(a + b) == Ids(a) + Ids(b)
  {
    if a == [] {
      assert a + b == b;
    } else {
      assert (a + b)[1..] == a[1..] + b;
      IdsAppend(a[1..], b);
    }
  }

  /** Pushing a row that passes `NotId(excluded)` onto a list appends its id
      to the ids the filter keeps. */
  lemma IdsAfterPush(cs: seq<Contact>, pushed: Contact, excluded: nat)
    requires pushed.id != excluded
    ensures Ids(Select(cs + [pushed], NotId(excluded))) == Ids(Select(cs, NotId(excluded))) + [pushed.id]
  {
    var kept := Select(cs, NotId(excluded));
    SelectAppend(cs, [pushed], NotId(excluded));
    SelectOne(pushed, NotId(excluded));
    assert Select(cs + [pushed], NotId(excluded)) == kept + [pushed];
    IdsAppend(kept, [pushed]);
    assert Ids([pushed]) == [pushed.id];
  }

  /** A selection of ascending rows that holds only `x`, and holds it, is `[x]`. */
  lemma {:induction false} SelectSingleton(cs: seq<Contact>, k: Criterion, x: Contact)
    requires AscendingIds(cs)
    requires x in cs && Holds(k, x)
    requires forall c :: c in cs && Holds(k, c) ==> c == x
    ensures Select(cs, k) == [x]
  {
    var rest := cs[1..];
    assert AscendingIds(rest);
    forall c | c in rest && Holds(k, c) ensures c == x {
      assert c in cs;
    }
    if cs[0] == x {
      forall c | c in rest ensures !Holds(k, c) {
        var j :| 0 <= j < |rest| && rest[j] == c;
        assert cs[j + 1] == c;
        assert cs[0].id < cs[j + 1].id;
      }
      SelectNone(rest, k);
    } else {
      assert x in rest;
      SelectSingleton(rest, k, x);
    }
  }
}
