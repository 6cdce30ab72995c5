/** Value types shared by the stores and the use cases: optional values, the per-record
    outcome of a persistence attempt, the values held by a column change set, pagination,
    and the ordering and filtering that the queries apply. */
module Common {

  datatype Option<+T> = None | Some(value: T)

  /** The result for one record: the record, whether it was accepted, and the reason
      when it was not (the empty string when it was). */
  datatype Outcome<+R> = Outcome(record: R, status: bool, errorReason: string)

  /** A value in a column change set, the `interface{}` of the Go update maps. */
  datatype Value = Text(text: string) | Number(number: int)

  /** A byte of a file's content. */
  newtype byte = b: int | 0 <= b < 256

  /** The object-store and server settings the Go code reads from the environment
      (MINIO_BULK_UPLOAD_BUCKET, MINIO_SERVER, MINIO_PORT), passed in explicitly. */
  datatype Config = Config(bucket: string, server: string, port: string)

  datatype Pagination = Pagination(limit: int, offset: int)

  function Min(a: int, b: int): int { if a <= b then a else b }

  /** How many leading rows OFFSET skips. The ORM's MySQL dialect (GORM v1) emits
      OFFSET only together with LIMIT, that is for a non-negative limit, and only for a
      non-negative offset; OFFSET 0 skips nothing. */
  function Skipped(n: nat, p: Pagination): (k: nat)
    ensures k <= n
    ensures p.limit < 0 || p.offset <= 0 ==> k == 0
    ensures p.limit >= 0 && p.offset > 0 ==> k == Min(p.offset, n)
  {
    if p.limit >= 0 && p.offset > 0 then Min(p.offset, n) else 0
  }

  /** LIMIT and OFFSET: skip `offset` rows, then keep at most `limit` of the rest.
      The ORM emits LIMIT for every non-negative limit, so a zero limit gives an empty
      page; only a negative limit (the ORM's "no limit") returns every row. */
  function Paginate<T>(s: seq<T>, p: Pagination): (r: seq<T>)
    ensures p.limit >= 0 ==> |r| == Min(p.limit, |s| - Skipped(|s|, p))
    ensures p.limit < 0 ==> r == s
    ensures forall k :: 0 <= k < |r| ==> r[k] == s[Skipped(|s|, p) + k]
  {
    var rest := s[Skipped(|s|, p)..];
    if p.limit >= 0 && p.limit < |rest| then rest[..p.limit] else rest
  }

  function Filter<T>(s: seq<T>, keep: T -> bool): (r: seq<T>)
    ensures |r| <= |s|
    ensures forall k :: 0 <= k < |r| ==> r[k] in s
    ensures forall k :: 0 <= k < |s| && keep(s[k]) ==> s[k] in r
    ensures forall k :: 0 <= k < |r| ==> keep(r[k])
  {
    if s == [] then []
    else if keep(s[0]) then [s[0]] + Filter(s[1..], keep)
    else Filter(s[1..], keep)
  }

  /** Filtering a concatenation filters each part: the filter keeps input order. */
  lemma {:induction false} FilterAppend<T>(s: seq<T>, t: seq<T>, keep: T -> bool)
    ensures Filter(s + t, keep) == Filter(s, keep) + Filter(t, keep)
  {
    if s != [] {
      assert (s + t)[0] == s[0];
      assert (s + t)[1..] == s[1..] + t;
      FilterAppend(s[1..], t, keep);
      if keep(s[0]) {
        assert Filter(s + t, keep) == [s[0]] + Filter(s[1..] + t, keep);
        assert Filter(s, keep) == [s[0]] + Filter(s[1..], keep);
      } else {
        assert Filter(s + t, keep) == Filter(s[1..] + t, keep);
        assert Filter(s, keep) == Filter(s[1..], keep);
      }
    } else {
      assert s + t == t;
    }
  }

  lemma {:induction false} FilterAll<T>(s: seq<T>, keep: T -> bool)
    requires forall x :: x in s ==> keep(x)
    ensures Filter(s, keep) == s
  {
    if s != [] {
      FilterAll(s[1..], keep);
    }
  }

  /** Filtering one more element appends it exactly when it is kept. */
  lemma FilterSnoc<T>(s: seq<T>, x: T, keep: T -> bool)
    ensures Filter(s + [x], keep) == Filter(s, keep) + (if keep(x) then [x] else [])
  {
    FilterAppend(s, [x], keep);
    assert [x][1..] == [];
  }

  /** The complement of a filter: what `reject` makes of each element that is not kept,
      in input order. */
  function Rejects<T, R>(s: seq<T>, keep: T -> bool, reject: T -> R): seq<R>
  {
    if s == [] then []
    else
      var last := s[|s| - 1];
      Rejects(s[..|s| - 1], keep, reject) + (if keep(last) then [] else [reject(last)])
  }

  /** Every element lands in exactly one of the filter and its complement; each entry of
      the complement comes from an element that is not kept. */
  lemma {:induction false} RejectsSpec<T, R>(s: seq<T>, keep: T -> bool, reject: T -> R)
    ensures |Filter(s, keep)| + |Rejects(s, keep, reject)| == |s|
    ensures var r := Rejects(s, keep, reject);
      forall k :: 0 <= k < |r| ==> exists i :: 0 <= i < |s| && !keep(s[i]) && r[k] == reject(s[i])
  {
    if s != [] {
      var init := s[..|s| - 1];
      var last := s[|s| - 1];
      assert s == init + [last];
      FilterSnoc(init, last, keep);
      RejectsSpec(init, keep, reject);
      var r := Rejects(s, keep, reject);
      var r0 := Rejects(init, keep, reject);
      forall k | 0 <= k < |r| ensures exists i :: 0 <= i < |s| && !keep(s[i]) && r[k] == reject(s[i]) {
        if k < |r0| {
          var i :| 0 <= i < |init| && !keep(init[i]) && r0[k] == reject(init[i]);
          assert s[i] == init[i];
        } else {
          assert r[k] == reject(s[|s| - 1]);
        }
      }
    }
  }

  ghost predicate SortedBy<T>(s: seq<T>, key: T -> int)
  {
    forall i, j :: 0 <= i < j < |s| ==> key(s[i]) <= key(s[j])
  }

  /** Insert `x` before the first element with a larger key. */
  function InsertBy<T>(x: T, s: seq<T>, key: T -> int): (r: seq<T>)
    ensures multiset(r) == multiset(s) + multiset{x}
    ensures |r| == |s| + 1
  {
    if s == [] then [x]
    else if key(x) <= key(s[0]) then [x] + s
    else
      assert s == [s[0]] + s[1..];
      [s[0]] + InsertBy(x, s[1..], key)
  }

  /** Inserting into a sorted sequence keeps it sorted; the new head is `x` or the old one. */
  lemma {:induction false} InsertBySorted<T>(x: T, s: seq<T>, key: T -> int)
    requires SortedBy(s, key)
    ensures SortedBy(InsertBy(x, s, key), key)
    ensures s == [] || InsertBy(x, s, key)[0] in {x, s[0]}
  {
    if s != [] {
      if key(x) <= key(s[0]) {
        SortedCons(x, s, key);
      } else {
        assert SortedBy(s[1..], key);
        InsertBySorted(x, s[1..], key);
        var tail := InsertBy(x, s[1..], key);
        assert key(s[0]) <= key(tail[0]);
        SortedCons(s[0], tail, key);
      }
    }
  }

  /** A sorted sequence stays sorted under a head no larger than its first element. */
  lemma SortedCons<T>(h: T, t: seq<T>, key: T -> int)
    requires SortedBy(t, key)
    requires t != [] ==> key(h) <= key(t[0])
    ensures SortedBy([h] + t, key)
  {
    var r := [h] + t;
    forall i, j | 0 <= i < j < |r| ensures key(r[i]) <= key(r[j]) {
      if i == 0 {
        assert r[j] == t[j - 1];
        if j > 1 {
          assert key(t[0]) <= key(t[j - 1]);
        }
      } else {
        assert r[i] == t[i - 1] && r[j] == t[j - 1];
      }
    }
  }

  /** The rows of `s` ordered by `key` ascending (ORDER BY key ASC): sorted, and a
      permutation of the input. */
  function SortBy<T>(s: seq<T>, key: T -> int): (r: seq<T>)
    ensures SortedBy(r, key)
    ensures multiset(r) == multiset(s)
    ensures |r| == |s|
  {
    if s == [] then []
    else
      assert s == [s[0]] + s[1..];
      var sorted := SortBy(s[1..], key);
      InsertBySorted(s[0], sorted, key);
      InsertBy(s[0], sorted, key)
  }

  /** Sorting does not add or lose elements. */
  lemma SortByMembers<T>(s: seq<T>, key: T -> int, x: T)
    ensures x in SortBy(s, key) <==> x in s
  {
    assert x in SortBy(s, key) <==> x in multiset(SortBy(s, key));
  }

  /** The database's answer to the k-th insert of a batch: an error text, or success for
      every attempt beyond the given answers. */
  function InsertAnswer(answers: seq<Option<string>>, k: nat): Option<string>
  {
    if k < |answers| then answers[k] else None
  }

  /** The records of the accepted outcomes, in outcome order. */
  function AcceptedRecords<R>(outcomes: seq<Outcome<R>>): (r: seq<R>)
    ensures |r| <= |outcomes|
  {
    if outcomes == [] then []
    else
      var last := outcomes[|outcomes| - 1];
      AcceptedRecords(outcomes[..|outcomes| - 1]) + (if last.status then [last.record] else [])
  }

  /** One more outcome adds its record exactly when it is accepted. */
  lemma AcceptedSnoc<R>(outcomes: seq<Outcome<R>>, o: Outcome<R>)
    ensures AcceptedRecords(outcomes + [o]) == AcceptedRecords(outcomes) + (if o.status then [o.record] else [])
  {
    assert (outcomes + [o])[..|outcomes|] == outcomes;
  }

  /** How many outcomes are accepted. */
  function CountAccepted<R>(outcomes: seq<Outcome<R>>): (n: nat)
    ensures n <= |outcomes|
  {
    if outcomes == [] then 0
    else CountAccepted(outcomes[..|outcomes| - 1]) + (if outcomes[|outcomes| - 1].status then 1 else 0)
  }

  lemma {:induction false} AcceptedRecordsCount<R>(outcomes: seq<Outcome<R>>)
    ensures |AcceptedRecords(outcomes)| == CountAccepted(outcomes)
  {
    if outcomes != [] {
      AcceptedRecordsCount(outcomes[..|outcomes| - 1]);
    }
  }

  /** Rejected outcomes appended after a list contribute no accepted record. */
  lemma {:induction false} AcceptedIgnoresRejected<R>(outcomes: seq<Outcome<R>>, rejected: seq<Outcome<R>>)
    requires forall k :: 0 <= k < |rejected| ==> !rejected[k].status
    ensures AcceptedRecords(outcomes + rejected) == AcceptedRecords(outcomes)
    ensures CountAccepted(outcomes + rejected) == CountAccepted(outcomes)
    decreases |rejected|
  {
    if rejected != [] {
      var init := rejected[..|rejected| - 1];
      assert (outcomes + rejected)[..|outcomes + rejected| - 1] == outcomes + init;
      AcceptedIgnoresRejected(outcomes, init);
    } else {
      assert outcomes + rejected == outcomes;
    }
  }

  /** An outcome list in which every entry is accepted keeps every record. */
  lemma {:induction false} AcceptedAll<R>(outcomes: seq<Outcome<R>>)
    requires forall k :: 0 <= k < |outcomes| ==> outcomes[k].status
    ensures CountAccepted(outcomes) == |outcomes|
  {
    if outcomes != [] {
      AcceptedAll(outcomes[..|outcomes| - 1]);
    }
  }

  /** A page of a sorted sequence: its elements come from the input, in key order, and
      there are at most as many as in the input and at most a non-negative limit. */
  lemma PageOfSorted<T>(s: seq<T>, key: T -> int, p: Pagination)
    ensures var r := Paginate(SortBy(s, key), p);
      && (forall k :: 0 <= k < |r| ==> r[k] in s)
      && (forall i, j :: 0 <= i < j < |r| ==> key(r[i]) <= key(r[j]))
      && |r| <= |s|
      && (p.limit >= 0 ==> |r| <= p.limit)
  {
    var sorted := SortBy(s, key);
    PageMembers(sorted, p);
    PageSorted(sorted, key, p);
    forall x | x in sorted ensures x in s {
      SortByMembers(s, key, x);
    }
  }

  /** A page holds only elements of its sequence. */
  lemma PageMembers<T>(s: seq<T>, p: Pagination)
    ensures var r := Paginate(s, p); forall k :: 0 <= k < |r| ==> r[k] in s
  {
    var r := Paginate(s, p);
    forall k | 0 <= k < |r| ensures r[k] in s {
      assert r[k] == s[Skipped(|s|, p) + k];
    }
  }

  /** A page of a sorted sequence is sorted. */
  lemma PageSorted<T>(s: seq<T>, key: T -> int, p: Pagination)
    requires SortedBy(s, key)
    ensures SortedBy(Paginate(s, p), key)
  {
    var off := Skipped(|s|, p);
    var rest := s[off..];
    forall i, j | 0 <= i < j < |rest| ensures key(rest[i]) <= key(rest[j]) {
      SortedAt(s, key, off + i, off + j);
    }
    if p.limit >= 0 && p.limit < |rest| {
      var r := rest[..p.limit];
      forall i, j | 0 <= i < j < |r| ensures key(r[i]) <= key(r[j]) {
        SortedAt(rest, key, i, j);
      }
    }
  }

  lemma SortedAt<T>(s: seq<T>, key: T -> int, a: int, b: int)
    requires SortedBy(s, key) && 0 <= a < b < |s|
    ensures key(s[a]) <= key(s[b])
  {
  }
}
