/** SignerInfos ::= SET OF SignerInfo (section 5.1 of RFC 5652), and the
    ordering hook SignerInfo supplies to it.

    The collection keeps its elements sorted: building it from a list, and
    decoding it, run a stable insertion sort that moves each new element in
    front of those that compare Greater than it. The comparison is der's
    order for a type with a value hook: the identifier and length octets of
    the two encodings first, the hook only when those are equal. All records
    share the SEQUENCE identifier, so records are ordered by the size of
    their encodings, shortest first; the hook answers Equal for every pair,
    so records of the same size keep the order in which they were inserted.
    Decoding then requires each element to compare Less than the next, so it
    refuses two records of the same size as a duplicate. Encoding writes the
    elements in the order they are stored. */
module SignerInfoSet {
  import opened Der
  import opened Leaves
  import opened SignerInfoCodec

  /** The ordering hook of SignerInfo. No ordering between signers has been
      settled on, so every pair compares Equal and the hook never fails. */
  function ValueCmp(a: SignerInfo, b: SignerInfo): Result<Ordering>
  {
    Ok(Equal)
  }

  /** The identifier and length octets that open the encoding of si. */
  function HeaderOctets(si: SignerInfo): (r: Result<seq<byte>>)
    ensures r.Ok? <==> EncodeSignerInfo(si).Ok?
    ensures r.Ok? ==> r.value <= EncodeSignerInfo(si).value
  {
    var fields :- EncodeSignerInfoFields(si);
    if |fields| > MaxLength then Err(Overflow)
    else Ok([SequenceTag] + EncodeLength(|fields|))
  }

  /** der's order on the elements of a SET OF whose type has a value hook:
      the header octets of the two encodings, then the hook when they are
      equal. A record that cannot be encoded makes the comparison fail. */
  function DerCmp(a: SignerInfo, b: SignerInfo): (r: Result<Ordering>)
    ensures r.Ok? <==> EncodeSignerInfo(a).Ok? && EncodeSignerInfo(b).Ok?
  {
    var ha :- HeaderOctets(a);
    var hb :- HeaderOctets(b);
    var c := CompareOctets(ha, hb);
    if c == Equal then ValueCmp(a, b) else Ok(c)
  }

  /** A comparison of two records, as the SET OF sort consumes it. */
  type Comparator = (SignerInfo, SignerInfo) -> Result<Ordering>

  /** Inserts x into ys by walking back from the end of ys while the element
      before x compares Greater than x; elements that compare Less or Equal
      stay in front of it, which makes the sort stable. A failing comparison
      aborts the sort. */
  function InsertFromBack(cmp: Comparator, ys: seq<SignerInfo>, x: SignerInfo): (r: Result<seq<SignerInfo>>)
    ensures r.Ok? ==> |r.value| == |ys| + 1
    decreases |ys|
  {
    if ys == [] then Ok([x])
    else
      var c :- cmp(ys[|ys| - 1], x);
      if c == Greater then
        var front :- InsertFromBack(cmp, ys[..|ys| - 1], x);
        Ok(front + [ys[|ys| - 1]])
      else Ok(ys + [x])
  }

  /** Insertion sort by cmp, taking the elements one at a time from the front. */
  function SortBy(cmp: Comparator, xs: seq<SignerInfo>): (r: Result<seq<SignerInfo>>)
    ensures r.Ok? ==> |r.value| == |xs|
    decreases |xs|
  {
    if xs == [] then Ok([])
    else
      var sorted :- SortBy(cmp, xs[..|xs| - 1]);
      InsertFromBack(cmp, sorted, xs[|xs| - 1])
  }

  /** Builds a SignerInfos collection from a list of records. */
  function SignerInfosFromVec(xs: seq<SignerInfo>): (r: Result<seq<SignerInfo>>)
    ensures r.Ok? ==> |r.value| == |xs|
  {
    SortBy(DerCmp, xs)
  }

  /** The check a decoded SET OF passes after it is sorted: each element must
      compare Less than the next. A failing comparison aborts the check, and
      a pair that compares Equal or Greater is refused as a duplicate. */
  function CheckAscending(cmp: Comparator, xs: seq<SignerInfo>): Result<()>
    decreases |xs|
  {
    if |xs| < 2 then Ok(())
    else
      var c :- cmp(xs[0], xs[1]);
      if c != Less then Err(SetDuplicate) else CheckAscending(cmp, xs[1..])
  }

  // The sort, for any comparison

  /** The hook ignores the contents of both records and always succeeds with Equal. */
  lemma ValueCmpIgnoresContents(a: SignerInfo, b: SignerInfo, c: SignerInfo, d: SignerInfo)
    ensures ValueCmp(a, b) == ValueCmp(c, d) == Ok(Equal)
  {
  }

  /** Whatever the comparison, a successful sort is a permutation of its input. */
  lemma {:induction false} InsertIsPermutation(cmp: Comparator, ys: seq<SignerInfo>, x: SignerInfo)
    requires InsertFromBack(cmp, ys, x).Ok?
    ensures multiset(InsertFromBack(cmp, ys, x).value) == multiset(ys) + multiset{x}
    decreases |ys|
  {
    if ys != [] && cmp(ys[|ys| - 1], x) == Ok(Greater) {
      var init := ys[..|ys| - 1];
      InsertIsPermutation(cmp, init, x);
      assert ys == init + [ys[|ys| - 1]];
    }
  }

  lemma {:induction false} SortIsPermutation(cmp: Comparator, xs: seq<SignerInfo>)
    requires SortBy(cmp, xs).Ok?
    ensures multiset(SortBy(cmp, xs).value) == multiset(xs)
    decreases |xs|
  {
    if xs != [] {
      var init := xs[..|xs| - 1];
      SortIsPermutation(cmp, init);
      InsertIsPermutation(cmp, SortBy(cmp, init).value, xs[|xs| - 1]);
      assert xs == init + [xs[|xs| - 1]];
    }
  }

  /** No element compares Greater than the one after it, and every such
      comparison succeeds. */
  ghost predicate InOrder(cmp: Comparator, xs: seq<SignerInfo>)
  {
    forall i :: 0 < i < |xs| ==> cmp(xs[i - 1], xs[i]).Ok? && cmp(xs[i - 1], xs[i]).value != Greater
  }

  /** A new element that does not compare Greater than the last stored one
      lands after everything already stored. */
  lemma InsertAppends(cmp: Comparator, ys: seq<SignerInfo>, x: SignerInfo)
    requires ys != [] ==> cmp(ys[|ys| - 1], x).Ok? && cmp(ys[|ys| - 1], x).value != Greater
    ensures InsertFromBack(cmp, ys, x) == Ok(ys + [x])
  {
    if ys == [] {
      assert [] + [x] == [x];
    }
  }

  /** Sorting a list that is already in order leaves it as it is. */
  lemma {:induction false} SortIsIdentity(cmp: Comparator, xs: seq<SignerInfo>)
    requires InOrder(cmp, xs)
    ensures SortBy(cmp, xs) == Ok(xs)
    decreases |xs|
  {
    if xs != [] {
      var init := xs[..|xs| - 1];
      assert InOrder(cmp, init) by {
        forall i | 0 < i < |init|
          ensures cmp(init[i - 1], init[i]).Ok? && cmp(init[i - 1], init[i]).value != Greater
        {
          assert init[i - 1] == xs[i - 1] && init[i] == xs[i];
        }
      }
      SortIsIdentity(cmp, init);
      if init != [] {
        assert init[|init| - 1] == xs[|xs| - 2];
      }
      InsertAppends(cmp, init, xs[|xs| - 1]);
      assert init + [xs[|xs| - 1]] == xs;
    }
  }

  /** Sorting by the hook alone keeps insertion order. */
  lemma HookAloneKeepsOrder(xs: seq<SignerInfo>)
    ensures SortBy(ValueCmp, xs) == Ok(xs)
  {
    SortIsIdentity(ValueCmp, xs);
  }

  // Sorting by a key

  /** On the records ok accepts, cmp succeeds and answers Greater exactly
      when the first key is the larger. */
  ghost predicate ComparesByKey(cmp: Comparator, key: SignerInfo -> nat, ok: SignerInfo -> bool)
  {
    forall a, b :: ok(a) && ok(b) ==> cmp(a, b).Ok? && (cmp(a, b).value == Greater <==> key(a) > key(b))
  }

  /** Every record of xs is accepted by ok, and the keys never decrease. */
  ghost predicate KeyOrdered(key: SignerInfo -> nat, ok: SignerInfo -> bool, xs: seq<SignerInfo>)
  {
    (forall i :: 0 <= i < |xs| ==> ok(xs[i]))
    && forall i, j :: 0 <= i < j < |xs| ==> key(xs[i]) <= key(xs[j])
  }

  lemma KeyOrderedIsInOrder(cmp: Comparator, key: SignerInfo -> nat, ok: SignerInfo -> bool, xs: seq<SignerInfo>)
    requires ComparesByKey(cmp, key, ok) && KeyOrdered(key, ok, xs)
    ensures InOrder(cmp, xs)
  {
    forall i | 0 < i < |xs|
      ensures cmp(xs[i - 1], xs[i]).Ok? && cmp(xs[i - 1], xs[i]).value != Greater
    {
      assert ok(xs[i - 1]) && ok(xs[i]);
    }
  }

  /** Inserting an accepted record into a key-ordered list succeeds, keeps
      the key order and brings in nothing but the new record. */
  lemma {:induction false} InsertKeepsKeyOrder(cmp: Comparator, key: SignerInfo -> nat, ok: SignerInfo -> bool,
                                               ys: seq<SignerInfo>, x: SignerInfo)
    requires ComparesByKey(cmp, key, ok) && KeyOrdered(key, ok, ys) && ok(x)
    ensures InsertFromBack(cmp, ys, x).Ok?
    ensures KeyOrdered(key, ok, InsertFromBack(cmp, ys, x).value)
    ensures forall e :: e in InsertFromBack(cmp, ys, x).value ==> e == x || e in ys
    decreases |ys|
  {
    if ys == [] {
      assert InsertFromBack(cmp, ys, x) == Ok([x]);
    } else {
      var last := ys[|ys| - 1];
      var init := ys[..|ys| - 1];
      assert ok(last);
      if key(last) > key(x) {
        assert KeyOrdered(key, ok, init) by {
          forall i, j | 0 <= i < j < |init|
            ensures key(init[i]) <= key(init[j])
          {
            assert init[i] == ys[i] && init[j] == ys[j];
          }
        }
        InsertKeepsKeyOrder(cmp, key, ok, init, x);
        var front := InsertFromBack(cmp, init, x).value;
        var r := front + [last];
        assert InsertFromBack(cmp, ys, x) == Ok(r);
        forall k | 0 <= k < |front|
          ensures key(front[k]) <= key(last)
        {
          if front[k] != x {
            assert front[k] in front;
            var i :| 0 <= i < |init| && init[i] == front[k];
            assert ys[i] == front[k];
          }
        }
        forall i, j | 0 <= i < j < |r|
          ensures key(r[i]) <= key(r[j])
        {
          if j < |front| {
            assert r[i] == front[i] && r[j] == front[j];
          } else {
            assert r[i] == front[i] && r[j] == last;
          }
        }
        forall e | e in r
          ensures e == x || e in ys
        {
          if e != last {
            assert e in front;
          }
        }
      } else {
        var r := ys + [x];
        assert InsertFromBack(cmp, ys, x) == Ok(r);
        forall i, j | 0 <= i < j < |r|
          ensures key(r[i]) <= key(r[j])
        {
          if j < |ys| {
            assert r[i] == ys[i] && r[j] == ys[j];
          } else if i < |ys| - 1 {
            assert r[i] == ys[i] && r[j] == x;
            assert key(ys[i]) <= key(last);
          }
        }
      }
    }
  }

  /** Sorting accepted records by a comparison that compares keys succeeds
      and leaves them in key order. */
  lemma {:induction false} SortKeepsKeyOrder(cmp: Comparator, key: SignerInfo -> nat, ok: SignerInfo -> bool,
                                             xs: seq<SignerInfo>)
    requires ComparesByKey(cmp, key, ok)
    requires forall i :: 0 <= i < |xs| ==> ok(xs[i])
    ensures SortBy(cmp, xs).Ok?
    ensures KeyOrdered(key, ok, SortBy(cmp, xs).value)
    decreases |xs|
  {
    if xs != [] {
      var init := xs[..|xs| - 1];
      assert forall i :: 0 <= i < |init| ==> init[i] == xs[i];
      SortKeepsKeyOrder(cmp, key, ok, init);
      assert ok(xs[|xs| - 1]);
      InsertKeepsKeyOrder(cmp, key, ok, SortBy(cmp, init).value, xs[|xs| - 1]);
    }
  }

  /** The records of xs whose key is k, in the order xs lists them. */
  function KeepKey(key: SignerInfo -> nat, k: nat, xs: seq<SignerInfo>): seq<SignerInfo>
    decreases |xs|
  {
    if xs == [] then []
    else KeepKey(key, k, xs[..|xs| - 1]) + (if key(xs[|xs| - 1]) == k then [xs[|xs| - 1]] else [])
  }

  /** Inserting an accepted record leaves the records of every key in the
      order they had, and puts the new record after those of its own key. */
  lemma {:induction false} InsertStable(cmp: Comparator, key: SignerInfo -> nat, ok: SignerInfo -> bool,
                                        ys: seq<SignerInfo>, x: SignerInfo, k: nat)
    requires ComparesByKey(cmp, key, ok) && ok(x)
    requires forall i :: 0 <= i < |ys| ==> ok(ys[i])
    ensures InsertFromBack(cmp, ys, x).Ok?
    ensures KeepKey(key, k, InsertFromBack(cmp, ys, x).value)
            == KeepKey(key, k, ys) + (if key(x) == k then [x] else [])
    decreases |ys|
  {
    if ys == [] {
      assert InsertFromBack(cmp, ys, x) == Ok([x]);
      assert [x][..0] == [];
    } else {
      var last := ys[|ys| - 1];
      var init := ys[..|ys| - 1];
      assert ok(last);
      if key(last) > key(x) {
        assert forall i :: 0 <= i < |init| ==> init[i] == ys[i];
        InsertStable(cmp, key, ok, init, x, k);
        var front := InsertFromBack(cmp, init, x).value;
        assert InsertFromBack(cmp, ys, x) == Ok(front + [last]);
        assert (front + [last])[..|front|] == front;
      } else {
        assert InsertFromBack(cmp, ys, x) == Ok(ys + [x]);
        assert (ys + [x])[..|ys|] == ys;
      }
    }
  }

  lemma {:induction false} KeepKeyMembers(key: SignerInfo -> nat, k: nat, xs: seq<SignerInfo>)
    ensures forall e :: e in KeepKey(key, k, xs) ==> e in xs && key(e) == k
    decreases |xs|
  {
    if xs != [] {
      var init := xs[..|xs| - 1];
      KeepKeyMembers(key, k, init);
      assert forall e :: e in init ==> e in xs;
    }
  }

  /** The last record of a list is among the records of its own key. */
  lemma KeepKeyOfLast(key: SignerInfo -> nat, xs: seq<SignerInfo>)
    ensures xs != [] ==> KeepKey(key, key(xs[|xs| - 1]), xs) != []
  {
  }

  /** In a key-ordered list, no key that has records exceeds the last key. */
  lemma KeepKeyBounded(key: SignerInfo -> nat, ok: SignerInfo -> bool, xs: seq<SignerInfo>, k: nat)
    requires KeyOrdered(key, ok, xs) && KeepKey(key, k, xs) != []
    ensures xs != [] && k <= key(xs[|xs| - 1])
  {
    var e := KeepKey(key, k, xs)[0];
    KeepKeyMembers(key, k, xs);
    assert e in KeepKey(key, k, xs);
    var i :| 0 <= i < |xs| && xs[i] == e;
  }

  lemma KeyOrderedInit(key: SignerInfo -> nat, ok: SignerInfo -> bool, xs: seq<SignerInfo>)
    requires KeyOrdered(key, ok, xs) && xs != []
    ensures KeyOrdered(key, ok, xs[..|xs| - 1])
  {
    assert forall i :: 0 <= i < |xs| - 1 ==> xs[..|xs| - 1][i] == xs[i];
  }

  /** Two key-ordered lists that list the records of every key in the same
      order are the same list. */
  lemma {:induction false} KeyBlocksDetermine(key: SignerInfo -> nat, ok: SignerInfo -> bool,
                                              ys: seq<SignerInfo>, zs: seq<SignerInfo>)
    requires KeyOrdered(key, ok, ys) && KeyOrdered(key, ok, zs)
    requires forall k :: KeepKey(key, k, ys) == KeepKey(key, k, zs)
    ensures ys == zs
    decreases |ys|
  {
    KeepKeyOfLast(key, ys);
    KeepKeyOfLast(key, zs);
    if ys != [] && zs != [] {
      var a, b := ys[|ys| - 1], zs[|zs| - 1];
      var yi, zi := ys[..|ys| - 1], zs[..|zs| - 1];
      KeepKeyBounded(key, ok, zs, key(a));
      KeepKeyBounded(key, ok, ys, key(b));
      var block := KeepKey(key, key(a), ys);
      assert block == KeepKey(key, key(a), yi) + [a];
      assert key(a) == key(b);
      assert block == KeepKey(key, key(b), zs) == KeepKey(key, key(b), zi) + [b];
      assert a == block[|block| - 1] == b;
      forall k
        ensures KeepKey(key, k, yi) == KeepKey(key, k, zi)
      {
        var t := if key(a) == k then [a] else [];
        var p, q := KeepKey(key, k, yi), KeepKey(key, k, zi);
        assert KeepKey(key, k, ys) == p + t;
        assert KeepKey(key, k, zs) == q + t;
        assert p == (p + t)[..|p|] && q == (q + t)[..|q|];
      }
      KeyOrderedInit(key, ok, ys);
      KeyOrderedInit(key, ok, zs);
      KeyBlocksDetermine(key, ok, yi, zi);
      assert ys == yi + [a] && zs == zi + [b];
    }
  }

  /** Sorting accepted records by a comparison that compares keys keeps the
      records of every key in the order the input lists them: the sort is
      stable. */
  lemma {:induction false} SortStable(cmp: Comparator, key: SignerInfo -> nat, ok: SignerInfo -> bool,
                                      xs: seq<SignerInfo>, k: nat)
    requires ComparesByKey(cmp, key, ok)
    requires forall i :: 0 <= i < |xs| ==> ok(xs[i])
    ensures SortBy(cmp, xs).Ok?
    ensures KeepKey(key, k, SortBy(cmp, xs).value) == KeepKey(key, k, xs)
    decreases |xs|
  {
    if xs != [] {
      var init := xs[..|xs| - 1];
      assert forall i :: 0 <= i < |init| ==> init[i] == xs[i];
      SortStable(cmp, key, ok, init, k);
      SortKeepsKeyOrder(cmp, key, ok, init);
      assert ok(xs[|xs| - 1]);
      InsertStable(cmp, key, ok, SortBy(cmp, init).value, xs[|xs| - 1], k);
    }
  }

  /** The check passes exactly when every element compares Less than the
      next; when every such comparison succeeds, a refusal is SetDuplicate. */
  lemma {:induction false} CheckAscendingMeans(cmp: Comparator, xs: seq<SignerInfo>)
    ensures CheckAscending(cmp, xs).Ok? <==> forall i :: 0 < i < |xs| ==> cmp(xs[i - 1], xs[i]) == Ok(Less)
    ensures (forall i :: 0 < i < |xs| ==> cmp(xs[i - 1], xs[i]).Ok?) && CheckAscending(cmp, xs).Err? ==>
              CheckAscending(cmp, xs).error == SetDuplicate
    decreases |xs|
  {
    if |xs| >= 2 {
      var tail := xs[1..];
      CheckAscendingMeans(cmp, tail);
      assert forall i :: 0 < i < |tail| ==> tail[i - 1] == xs[i] && tail[i] == xs[i + 1];
    }
  }

  lemma CheckAscendingPair(cmp: Comparator, x: SignerInfo, y: SignerInfo)
    requires cmp(x, y) == Ok(Less)
    ensures CheckAscending(cmp, [x, y]) == Ok(())
  {
    assert [x, y][1..] == [y];
  }

  /** On the records ok accepts, cmp answers Less exactly when the first key
      is the smaller. */
  ghost predicate LessByKey(cmp: Comparator, key: SignerInfo -> nat, ok: SignerInfo -> bool)
  {
    forall a, b :: ok(a) && ok(b) ==> (cmp(a, b) == Ok(Less) <==> key(a) < key(b))
  }

  /** No two records of xs share a key. */
  ghost predicate KeysDistinct(key: SignerInfo -> nat, xs: seq<SignerInfo>)
  {
    forall k :: |KeepKey(key, k, xs)| <= 1
  }

  lemma {:induction false} KeepKeyHas(key: SignerInfo -> nat, xs: seq<SignerInfo>, i: nat)
    requires i < |xs|
    ensures xs[i] in KeepKey(key, key(xs[i]), xs)
    decreases |xs|
  {
    if i < |xs| - 1 {
      var init := xs[..|xs| - 1];
      KeepKeyHas(key, init, i);
      assert init[i] == xs[i];
    }
  }

  /** Two records with one key put two records in that key's subsequence. */
  lemma {:induction false} TwoOfKey(key: SignerInfo -> nat, xs: seq<SignerInfo>, i: nat, j: nat)
    requires i < j < |xs| && key(xs[i]) == key(xs[j])
    ensures |KeepKey(key, key(xs[j]), xs)| >= 2
    decreases |xs|
  {
    var init := xs[..|xs| - 1];
    assert init[i] == xs[i];
    if j == |xs| - 1 {
      KeepKeyHas(key, init, i);
    } else {
      assert init[j] == xs[j];
      TwoOfKey(key, init, i, j);
    }
  }

  lemma {:induction false} KeepKeyNone(key: SignerInfo -> nat, k: nat, xs: seq<SignerInfo>)
    requires forall i :: 0 <= i < |xs| ==> key(xs[i]) != k
    ensures KeepKey(key, k, xs) == []
    decreases |xs|
  {
    if xs != [] {
      var init := xs[..|xs| - 1];
      assert forall i :: 0 <= i < |init| ==> init[i] == xs[i];
      KeepKeyNone(key, k, init);
    }
  }

  /** In a list whose keys strictly increase, no two records share a key. */
  lemma {:induction false} StrictKeysDistinct(key: SignerInfo -> nat, xs: seq<SignerInfo>, k: nat)
    requires forall i, j :: 0 <= i < j < |xs| ==> key(xs[i]) < key(xs[j])
    ensures |KeepKey(key, k, xs)| <= 1
    decreases |xs|
  {
    if xs != [] {
      var init := xs[..|xs| - 1];
      assert forall i :: 0 <= i < |init| ==> init[i] == xs[i];
      StrictKeysDistinct(key, init, k);
      if key(xs[|xs| - 1]) == k {
        KeepKeyNone(key, k, init);
      }
    }
  }

  /** On a key-ordered list, the check passes exactly when no two records
      share a key, and otherwise refuses it as a duplicate. */
  lemma CheckAscendingByKey(cmp: Comparator, key: SignerInfo -> nat, ok: SignerInfo -> bool, xs: seq<SignerInfo>)
    requires ComparesByKey(cmp, key, ok) && LessByKey(cmp, key, ok) && KeyOrdered(key, ok, xs)
    ensures CheckAscending(cmp, xs) == if KeysDistinct(key, xs) then Ok(()) else Err(SetDuplicate)
  {
    CheckAscendingMeans(cmp, xs);
    if KeysDistinct(key, xs) {
      forall i | 0 < i < |xs|
        ensures cmp(xs[i - 1], xs[i]) == Ok(Less)
      {
        if key(xs[i - 1]) >= key(xs[i]) {
          TwoOfKey(key, xs, i - 1, i);
        }
      }
    } else if CheckAscending(cmp, xs).Ok? {
      var k :| |KeepKey(key, k, xs)| > 1;
      forall i, j | 0 <= i < j < |xs|
        ensures key(xs[i]) < key(xs[j])
      {
        assert cmp(xs[i], xs[i + 1]) == Ok(Less);
      }
      StrictKeysDistinct(key, xs, k);
    }
  }

  /** The keys of the records of xs, added up. */
  function Sum(key: SignerInfo -> nat, xs: seq<SignerInfo>): nat
    decreases |xs|
  {
    if xs == [] then 0 else key(xs[0]) + Sum(key, xs[1..])
  }

  lemma {:induction false} SumAppend(key: SignerInfo -> nat, a: seq<SignerInfo>, b: seq<SignerInfo>)
    ensures Sum(key, a + b) == Sum(key, a) + Sum(key, b)
    decreases |a|
  {
    if a == [] {
      assert a + b == b;
    } else {
      SumAppend(key, a[1..], b);
      assert (a + b)[1..] == a[1..] + b;
    }
  }

  /** Taking out the element at index j takes its key out of the sum. */
  lemma SumRemove(key: SignerInfo -> nat, ys: seq<SignerInfo>, j: nat)
    requires j < |ys|
    ensures Sum(key, ys) == key(ys[j]) + Sum(key, ys[..j] + ys[j + 1..])
  {
    var before, after := ys[..j], ys[j + 1..];
    assert ys == before + ys[j..];
    SumAppend(key, before, ys[j..]);
    assert ys[j..][0] == ys[j] && ys[j..][1..] == after;
    SumAppend(key, before, after);
  }

  /** Taking the same element out of two permutations of each other leaves
      two permutations of each other. */
  lemma MultisetRemove(xs: seq<SignerInfo>, ys: seq<SignerInfo>, j: nat)
    requires multiset(xs) == multiset(ys) && xs != [] && j < |ys| && ys[j] == xs[0]
    ensures multiset(xs[1..]) == multiset(ys[..j] + ys[j + 1..])
  {
    var before, after := ys[..j], ys[j + 1..];
    assert ys == before + [ys[j]] + after;
    assert xs == [xs[0]] + xs[1..];
    assert multiset(ys) == multiset(before) + multiset{ys[j]} + multiset(after);
    assert multiset(before + after) == multiset(before) + multiset(after);
    assert multiset(xs[1..]) == multiset(ys) - multiset{xs[0]};
  }

  /** Reordering records does not change the sum of their keys. */
  lemma {:induction false} SumPermutation(key: SignerInfo -> nat, xs: seq<SignerInfo>, ys: seq<SignerInfo>)
    requires multiset(xs) == multiset(ys)
    ensures Sum(key, xs) == Sum(key, ys)
    decreases |xs|
  {
    if xs == [] {
      assert |ys| == |multiset(ys)| == 0;
    } else {
      assert xs[0] in multiset(ys);
      var j :| 0 <= j < |ys| && ys[j] == xs[0];
      MultisetRemove(xs, ys, j);
      SumPermutation(key, xs[1..], ys[..j] + ys[j + 1..]);
      SumRemove(key, ys, j);
    }
  }

  // der's order: by encoded size

  predicate Encodes(si: SignerInfo)
  {
    EncodeSignerInfo(si).Ok?
  }

  /** The size of the encoding of si, or 0 when si cannot be encoded. */
  function EncodedSize(si: SignerInfo): nat
  {
    if EncodeSignerInfo(si).Ok? then |EncodeSignerInfo(si).value| else 0
  }

  /** DerCmp compares two encodable records by the sizes of their encodings;
      records of the same size compare Equal. */
  lemma DerCmpBySize(a: SignerInfo, b: SignerInfo)
    requires EncodeSignerInfo(a).Ok? && EncodeSignerInfo(b).Ok?
    ensures DerCmp(a, b).Ok?
    ensures DerCmp(a, b).value == Less <==> EncodedSize(a) < EncodedSize(b)
    ensures DerCmp(a, b).value == Equal <==> EncodedSize(a) == EncodedSize(b)
    ensures DerCmp(a, b).value == Greater <==> EncodedSize(a) > EncodedSize(b)
  {
    var fa := EncodeSignerInfoFields(a).value;
    var fb := EncodeSignerInfoFields(b).value;
    var la := EncodeLength(|fa|);
    var lb := EncodeLength(|fb|);
    assert EncodedSize(a) == 1 + |la| + |fa|;
    assert EncodedSize(b) == 1 + |lb| + |fb|;
    var ha := [SequenceTag] + la;
    var hb := [SequenceTag] + lb;
    assert HeaderOctets(a) == Ok(ha) && HeaderOctets(b) == Ok(hb);
    assert CompareOctets(ha, hb) == CompareOctets(la, lb) by {
      assert ha[1..] == la && hb[1..] == lb;
    }
    if |fa| < |fb| {
      LengthOctetsOrder(|fa|, |fb|);
      EncodeLengthSizeMonotone(|fa|, |fb|);
    } else if |fa| > |fb| {
      LengthOctetsOrder(|fb|, |fa|);
      EncodeLengthSizeMonotone(|fb|, |fa|);
    } else {
      CompareOctetsEqual(ha, hb);
    }
  }

  lemma DerCmpComparesBySize()
    ensures ComparesByKey(DerCmp, EncodedSize, Encodes)
  {
    forall a, b | Encodes(a) && Encodes(b)
      ensures DerCmp(a, b).Ok? && (DerCmp(a, b).value == Greater <==> EncodedSize(a) > EncodedSize(b))
    {
      DerCmpBySize(a, b);
    }
  }

  lemma DerCmpLessBySize()
    ensures LessByKey(DerCmp, EncodedSize, Encodes)
  {
    forall a, b | Encodes(a) && Encodes(b)
      ensures DerCmp(a, b) == Ok(Less) <==> EncodedSize(a) < EncodedSize(b)
    {
      DerCmpBySize(a, b);
    }
  }

  /** Every record of xs can be encoded. */
  ghost predicate Encodable(xs: seq<SignerInfo>)
  {
    forall i :: 0 <= i < |xs| ==> Encodes(xs[i])
  }

  /** The order in which der keeps a SignerInfos collection: shortest encoding first. */
  ghost predicate SizeOrdered(xs: seq<SignerInfo>)
  {
    KeyOrdered(EncodedSize, Encodes, xs)
  }

  /** No two records of xs have encodings of the same size. */
  ghost predicate SizesDistinct(xs: seq<SignerInfo>)
  {
    KeysDistinct(EncodedSize, xs)
  }

  /** A list already in size order is stored as given. */
  lemma SizeOrderedIsKept(xs: seq<SignerInfo>)
    requires SizeOrdered(xs)
    ensures SignerInfosFromVec(xs) == Ok(xs)
  {
    DerCmpComparesBySize();
    KeyOrderedIsInOrder(DerCmp, EncodedSize, Encodes, xs);
    SortIsIdentity(DerCmp, xs);
  }

  /** Records whose encodings all have the same size keep insertion order. */
  lemma SameSizeKeepsInsertionOrder(xs: seq<SignerInfo>, size: nat)
    requires forall i :: 0 <= i < |xs| ==> EncodeSignerInfo(xs[i]).Ok? && |EncodeSignerInfo(xs[i]).value| == size
    ensures SignerInfosFromVec(xs) == Ok(xs)
  {
    assert forall i :: 0 <= i < |xs| ==> Encodes(xs[i]) && EncodedSize(xs[i]) == size;
    SizeOrderedIsKept(xs);
  }

  /** Building a collection from encodable records succeeds, stores the same
      records, stores them shortest encoding first, and keeps the records of
      each size in insertion order. */
  lemma FromVecSortsBySize(xs: seq<SignerInfo>)
    requires Encodable(xs)
    ensures SignerInfosFromVec(xs).Ok?
    ensures multiset(SignerInfosFromVec(xs).value) == multiset(xs)
    ensures SizeOrdered(SignerInfosFromVec(xs).value)
    ensures forall size :: KeepKey(EncodedSize, size, SignerInfosFromVec(xs).value) == KeepKey(EncodedSize, size, xs)
  {
    DerCmpComparesBySize();
    SortKeepsKeyOrder(DerCmp, EncodedSize, Encodes, xs);
    SortIsPermutation(DerCmp, xs);
    forall size
      ensures KeepKey(EncodedSize, size, SignerInfosFromVec(xs).value) == KeepKey(EncodedSize, size, xs)
    {
      SortStable(DerCmp, EncodedSize, Encodes, xs, size);
    }
  }

  /** What a collection stores is fully determined: the one list in size order
      that keeps the records of each size in insertion order. */
  lemma FromVecIsDetermined(xs: seq<SignerInfo>, ys: seq<SignerInfo>)
    requires Encodable(xs) && SizeOrdered(ys)
    requires forall size :: KeepKey(EncodedSize, size, ys) == KeepKey(EncodedSize, size, xs)
    ensures SignerInfosFromVec(xs) == Ok(ys)
  {
    FromVecSortsBySize(xs);
    KeyBlocksDetermine(EncodedSize, Encodes, SignerInfosFromVec(xs).value, ys);
  }

  /** Moving b in front of a1 leaves every key's records in their order when
      a1 and a2 share a key that b does not have. */
  lemma MoveToFrontKeepsKeys(key: SignerInfo -> nat, k: nat, a1: SignerInfo, b: SignerInfo, a2: SignerInfo)
    requires key(a1) == key(a2) != key(b)
    ensures KeepKey(key, k, [b, a1, a2]) == KeepKey(key, k, [a1, b, a2])
  {
    var ka, kb := if key(a1) == k then [a1] else [], if key(b) == k then [b] else [];
    var ka2 := if key(a2) == k then [a2] else [];
    assert [a1, b, a2][..2][..1] == [a1] && [a1, b, a2][..2] == [a1, b];
    assert [b, a1, a2][..2][..1] == [b] && [b, a1, a2][..2] == [b, a1];
    assert KeepKey(key, k, [a1]) == ka && KeepKey(key, k, [b]) == kb;
    assert KeepKey(key, k, [a1, b, a2]) == ka + kb + ka2;
    assert KeepKey(key, k, [b, a1, a2]) == kb + ka + ka2;
    assert ka == [] || kb == [];
  }

  /** A shorter record inserted between two of the same size moves to the
      front, and the two keep their insertion order behind it. */
  lemma MixedSizesKeepInsertionOrder(a1: SignerInfo, b: SignerInfo, a2: SignerInfo)
    requires EncodeSignerInfo(a1).Ok? && EncodeSignerInfo(b).Ok? && EncodeSignerInfo(a2).Ok?
    requires EncodedSize(a1) == EncodedSize(a2) > EncodedSize(b)
    ensures SignerInfosFromVec([a1, b, a2]) == Ok([b, a1, a2])
  {
    var xs, ys := [a1, b, a2], [b, a1, a2];
    forall size
      ensures KeepKey(EncodedSize, size, ys) == KeepKey(EncodedSize, size, xs)
    {
      MoveToFrontKeepsKeys(EncodedSize, size, a1, b, a2);
    }
    assert SizeOrdered(ys) by {
      assert forall i :: 0 <= i < |ys| ==> ys[i] in {a1, b, a2};
    }
    FromVecIsDetermined(xs, ys);
  }

  /** Of two records with encodings of different sizes, the shorter is stored
      first whichever was inserted first. */
  lemma ShorterFirst(a: SignerInfo, b: SignerInfo)
    requires EncodeSignerInfo(a).Ok? && EncodeSignerInfo(b).Ok?
    requires EncodedSize(a) > EncodedSize(b)
    ensures SignerInfosFromVec([a, b]) == Ok([b, a])
    ensures SignerInfosFromVec([b, a]) == Ok([b, a])
  {
    DerCmpBySize(a, b);
    DerCmpBySize(b, a);
    assert [a, b][..1] == [a] && [b, a][..1] == [b];
    assert SortBy(DerCmp, [a]) == Ok([a]) && SortBy(DerCmp, [b]) == Ok([b]);
    assert [b] + [a] == [b, a];
  }

  // Encoding and decoding

  /** The encodings of the elements, one after the other, in stored order. */
  function EncodeSignerInfoElements(xs: seq<SignerInfo>): Result<seq<byte>>
    decreases |xs|
  {
    if xs == [] then Ok([])
    else
      var head :- EncodeSignerInfo(xs[0]);
      var tail :- EncodeSignerInfoElements(xs[1..]);
      Ok(head + tail)
  }

  function EncodeSignerInfos(xs: seq<SignerInfo>): (r: Result<seq<byte>>)
    ensures r.Ok? ==> |r.value| > 0 && r.value[0] == SetTag
  {
    var elements :- EncodeSignerInfoElements(xs);
    Frame(SetTag, elements)
  }

  /** Reads SignerInfo elements until the contents are used up, keeping the
      order in which they appear. */
  function DecodeSignerInfoElements(s: seq<byte>): Result<seq<SignerInfo>>
    decreases |s|
  {
    if s == [] then Ok([])
    else
      var head :- DecodeSignerInfo(s);
      var tail :- DecodeSignerInfoElements(head.rest);
      Ok([head.value] + tail)
  }

  /** Reads the SET and its elements in the order they appear in the input. */
  function ReadSignerInfoSet(s: seq<byte>): (r: Result<Parsed<seq<SignerInfo>>>)
    ensures s == [] ==> r == Err(MissingField)
    ensures s != [] && s[0] != SetTag ==> r == Err(TagMismatch(s[0]))
    ensures r.Ok? ==> |r.value.rest| < |s|
  {
    var outer :- ReadExpected(SetTag, s);
    var elements :- DecodeSignerInfoElements(outer.value);
    Ok(Parsed(elements, outer.rest))
  }

  /** Reads the SET, sorts its elements as the collection stores them, and
      refuses the result unless each element compares Less than the next. */
  function DecodeSignerInfos(s: seq<byte>): (r: Result<Parsed<seq<SignerInfo>>>)
    ensures s == [] ==> r == Err(MissingField)
    ensures s != [] && s[0] != SetTag ==> r == Err(TagMismatch(s[0]))
    ensures r.Ok? ==> |r.value.rest| < |s|
  {
    var p :- ReadSignerInfoSet(s);
    var sorted :- SortBy(DerCmp, p.value);
    var _ :- CheckAscending(DerCmp, sorted);
    Ok(Parsed(sorted, p.rest))
  }

  lemma {:induction false} ElementsRoundTrip(xs: seq<SignerInfo>)
    requires EncodeSignerInfoElements(xs).Ok?
    ensures DecodeSignerInfoElements(EncodeSignerInfoElements(xs).value) == Ok(xs)
    decreases |xs|
  {
    if xs != [] {
      var head := EncodeSignerInfo(xs[0]).value;
      var tail := EncodeSignerInfoElements(xs[1..]).value;
      assert EncodeSignerInfoElements(xs) == Ok(head + tail);
      SignerInfoRoundTrip(xs[0], tail);
      ElementsRoundTrip(xs[1..]);
      DecodeElementsStep(head + tail, xs[0], tail, xs[1..]);
      assert [xs[0]] + xs[1..] == xs;
    }
  }

  /** One record read off the front, then the others. */
  lemma DecodeElementsStep(s: seq<byte>, x: SignerInfo, rest: seq<byte>, others: seq<SignerInfo>)
    requires s != [] && DecodeSignerInfo(s) == Ok(Parsed(x, rest))
    requires DecodeSignerInfoElements(rest) == Ok(others)
    ensures DecodeSignerInfoElements(s) == Ok([x] + others)
  {
  }

  lemma {:induction false} ElementsCanonical(s: seq<byte>)
    requires DecodeSignerInfoElements(s).Ok?
    ensures EncodeSignerInfoElements(DecodeSignerInfoElements(s).value) == Ok(s)
    decreases |s|
  {
    if s != [] {
      var head := DecodeSignerInfo(s).value;
      SignerInfoCanonical(s);
      ElementsCanonical(head.rest);
      var xs := DecodeSignerInfoElements(s).value;
      assert xs[0] == head.value;
      assert xs[1..] == DecodeSignerInfoElements(head.rest).value;
    }
  }

  /** A list whose elements all encode can be encoded record by record. */
  lemma {:induction false} ElementsEncodable(xs: seq<SignerInfo>)
    requires EncodeSignerInfoElements(xs).Ok?
    ensures Encodable(xs)
    decreases |xs|
  {
    if xs != [] {
      ElementsEncodable(xs[1..]);
      forall i | 0 < i < |xs|
        ensures Encodes(xs[i])
      {
        assert xs[i] == xs[1..][i - 1];
      }
    }
  }

  /** Reading the encoding of a list gives back the list in the same order,
      whatever that order, and leaves whatever follows untouched. */
  lemma SignerInfoSetRoundTrip(xs: seq<SignerInfo>, rest: seq<byte>)
    requires EncodeSignerInfos(xs).Ok?
    ensures ReadSignerInfoSet(EncodeSignerInfos(xs).value + rest) == Ok(Parsed(xs, rest))
  {
    var elements := EncodeSignerInfoElements(xs).value;
    FrameRoundTrip(SetTag, elements, rest);
    ElementsRoundTrip(xs);
  }

  /** Whatever ReadSignerInfoSet accepts is the encoding of the elements it
      returns, in the order it returns them, followed by the rest. */
  lemma SignerInfoSetCanonical(s: seq<byte>)
    requires ReadSignerInfoSet(s).Ok?
    ensures EncodeSignerInfos(ReadSignerInfoSet(s).value.value).Ok?
    ensures s == EncodeSignerInfos(ReadSignerInfoSet(s).value.value).value + ReadSignerInfoSet(s).value.rest
  {
    var outer := ReadExpected(SetTag, s).value;
    ReadExpectedCanonical(SetTag, s);
    ElementsCanonical(outer.value);
  }

  /** A collection, stored in size order as the collection keeps it, decodes
      from its encoding to the same elements in the same order, with the
      rest untouched, when no two of its records have the same size; when two
      do, decoding refuses it as a duplicate. */
  lemma SignerInfosRoundTrip(xs: seq<SignerInfo>, rest: seq<byte>)
    requires SizeOrdered(xs)
    requires EncodeSignerInfos(xs).Ok?
    ensures DecodeSignerInfos(EncodeSignerInfos(xs).value + rest)
            == if SizesDistinct(xs) then Ok(Parsed(xs, rest)) else Err(SetDuplicate)
  {
    SignerInfoSetRoundTrip(xs, rest);
    SizeOrderedIsKept(xs);
    DerCmpComparesBySize();
    DerCmpLessBySize();
    CheckAscendingByKey(DerCmp, EncodedSize, Encodes, xs);
  }

  /** Decoding succeeds exactly when the SET can be read and no two records
      read have the same size, and refuses two of the same size as a
      duplicate; it returns the elements read, sorted by size with the records
      of each size in the order read, and the same rest. */
  lemma DecodeSortsBySize(s: seq<byte>)
    ensures DecodeSignerInfos(s).Ok? <==> ReadSignerInfoSet(s).Ok? && SizesDistinct(ReadSignerInfoSet(s).value.value)
    ensures ReadSignerInfoSet(s).Ok? && !SizesDistinct(ReadSignerInfoSet(s).value.value) ==>
              DecodeSignerInfos(s) == Err(SetDuplicate)
    ensures DecodeSignerInfos(s).Ok? ==>
              multiset(DecodeSignerInfos(s).value.value) == multiset(ReadSignerInfoSet(s).value.value)
              && SizeOrdered(DecodeSignerInfos(s).value.value)
              && (forall size :: KeepKey(EncodedSize, size, DecodeSignerInfos(s).value.value)
                                 == KeepKey(EncodedSize, size, ReadSignerInfoSet(s).value.value))
              && DecodeSignerInfos(s).value.rest == ReadSignerInfoSet(s).value.rest
  {
    if ReadSignerInfoSet(s).Ok? {
      var xs := ReadSignerInfoSet(s).value.value;
      SignerInfoSetCanonical(s);
      ElementsEncodable(xs);
      FromVecSortsBySize(xs);
      var sorted := SignerInfosFromVec(xs).value;
      DerCmpComparesBySize();
      DerCmpLessBySize();
      CheckAscendingByKey(DerCmp, EncodedSize, Encodes, sorted);
      assert SizesDistinct(sorted) <==> SizesDistinct(xs) by {
        assert forall size :: KeepKey(EncodedSize, size, sorted) == KeepKey(EncodedSize, size, xs);
      }
    }
  }

  /** What decoding returns is fully determined: the one list in size order
      that keeps the records of each size in the order they were read, or a
      duplicate refusal when two of them have the same size. */
  lemma DecodeIsDetermined(s: seq<byte>, ys: seq<SignerInfo>)
    requires ReadSignerInfoSet(s).Ok? && SizeOrdered(ys)
    requires forall size :: KeepKey(EncodedSize, size, ys) == KeepKey(EncodedSize, size, ReadSignerInfoSet(s).value.value)
    ensures DecodeSignerInfos(s)
            == if SizesDistinct(ys) then Ok(Parsed(ys, ReadSignerInfoSet(s).value.rest)) else Err(SetDuplicate)
  {
    DecodeSortsBySize(s);
    assert SizesDistinct(ys) <==> SizesDistinct(ReadSignerInfoSet(s).value.value);
    if SizesDistinct(ys) {
      KeyBlocksDetermine(EncodedSize, Encodes, DecodeSignerInfos(s).value.value, ys);
    }
  }

  /** Whatever DecodeSignerInfos accepts re-encodes to as many octets as it
      read; when the input already listed the elements in size order, the
      re-encoding is the input itself. */
  lemma SignerInfosCanonical(s: seq<byte>)
    requires DecodeSignerInfos(s).Ok?
    ensures EncodeSignerInfos(DecodeSignerInfos(s).value.value).Ok?
    ensures |EncodeSignerInfos(DecodeSignerInfos(s).value.value).value| + |DecodeSignerInfos(s).value.rest| == |s|
    ensures SizeOrdered(ReadSignerInfoSet(s).value.value) ==>
              s == EncodeSignerInfos(DecodeSignerInfos(s).value.value).value + DecodeSignerInfos(s).value.rest
  {
    var xs := ReadSignerInfoSet(s).value.value;
    SignerInfoSetCanonical(s);
    ElementsEncodable(xs);
    FromVecSortsBySize(xs);
    var ys := DecodeSignerInfos(s).value.value;
    PermutedElementsEncode(xs, ys);
    if SizeOrdered(xs) {
      SizeOrderedIsKept(xs);
    }
  }

  /** The concatenated encodings of encodable records are as long as their
      total size. */
  lemma {:induction false} ElementsSize(xs: seq<SignerInfo>)
    requires Encodable(xs)
    ensures EncodeSignerInfoElements(xs).Ok?
    ensures |EncodeSignerInfoElements(xs).value| == Sum(EncodedSize, xs)
    decreases |xs|
  {
    if xs != [] {
      assert Encodable(xs[1..]) by {
        forall i | 0 <= i < |xs[1..]|
          ensures Encodes(xs[1..][i])
        {
          assert xs[1..][i] == xs[i + 1];
        }
      }
      ElementsSize(xs[1..]);
    }
  }

  /** A permutation of a list that can be encoded can be encoded too, to the
      same number of octets. */
  lemma PermutedElementsEncode(xs: seq<SignerInfo>, ys: seq<SignerInfo>)
    requires EncodeSignerInfos(xs).Ok?
    requires multiset(xs) == multiset(ys)
    ensures EncodeSignerInfos(ys).Ok?
    ensures |EncodeSignerInfos(ys).value| == |EncodeSignerInfos(xs).value|
  {
    ElementsEncodable(xs);
    ElementsSize(xs);
    assert Encodable(ys) by {
      forall k | 0 <= k < |ys|
        ensures Encodes(ys[k])
      {
        assert ys[k] in multiset(xs);
        var i :| 0 <= i < |xs| && xs[i] == ys[k];
      }
    }
    SumPermutation(EncodedSize, xs, ys);
    ElementsSize(ys);
    var ex := EncodeSignerInfoElements(xs).value;
    var ey := EncodeSignerInfoElements(ys).value;
    FrameShape(SetTag, ex);
    FrameShape(SetTag, ey);
  }

  /** Among records of the same encoded size, insertion order is the encoded
      order: two different records stored in the two possible orders give
      two different encodings. */
  lemma InsertionOrderIsEncodedOrder(a: SignerInfo, b: SignerInfo)
    requires a != b
    requires EncodeSignerInfos([a, b]).Ok? && EncodeSignerInfos([b, a]).Ok?
    requires EncodedSize(a) == EncodedSize(b)
    ensures SignerInfosFromVec([a, b]) == Ok([a, b]) && SignerInfosFromVec([b, a]) == Ok([b, a])
    ensures EncodeSignerInfos([a, b]).value != EncodeSignerInfos([b, a]).value
  {
    ElementsEncodable([a, b]);
    assert Encodes([a, b][0]) && Encodes([a, b][1]);
    SameSizeKeepsInsertionOrder([a, b], EncodedSize(a));
    SameSizeKeepsInsertionOrder([b, a], EncodedSize(a));
    SignerInfoSetRoundTrip([a, b], []);
    SignerInfoSetRoundTrip([b, a], []);
    assert [a, b] != [b, a] by {
      assert [a, b][0] == a && [b, a][0] == b;
    }
  }

  /** Two records of the same size are stored in insertion order and encode,
      but decoding that encoding refuses it as a duplicate. */
  lemma SameSizeSetRefused(a: SignerInfo, b: SignerInfo, rest: seq<byte>)
    requires EncodeSignerInfos([a, b]).Ok?
    requires EncodedSize(a) == EncodedSize(b)
    ensures SignerInfosFromVec([a, b]) == Ok([a, b])
    ensures DecodeSignerInfos(EncodeSignerInfos([a, b]).value + rest) == Err(SetDuplicate)
  {
    ElementsEncodable([a, b]);
    assert Encodes([a, b][0]) && Encodes([a, b][1]);
    SameSizeKeepsInsertionOrder([a, b], EncodedSize(a));
    TwoOfKey(EncodedSize, [a, b], 0, 1);
    SignerInfosRoundTrip([a, b], rest);
  }

  /** The decoder accepts a SET whose longer element comes first, and returns
      the elements shortest first; re-encoding them does not give back the
      input. */
  lemma LongerFirstInputReordered(a: SignerInfo, b: SignerInfo, rest: seq<byte>)
    requires EncodeSignerInfos([a, b]).Ok?
    requires EncodedSize(a) > EncodedSize(b)
    ensures DecodeSignerInfos(EncodeSignerInfos([a, b]).value + rest) == Ok(Parsed([b, a], rest))
    ensures EncodeSignerInfos([b, a]).Ok? && EncodeSignerInfos([b, a]).value != EncodeSignerInfos([a, b]).value
  {
    ElementsEncodable([a, b]);
    assert Encodes([a, b][0]) && Encodes([a, b][1]);
    SignerInfoSetRoundTrip([a, b], rest);
    ShorterFirst(a, b);
    DerCmpBySize(b, a);
    CheckAscendingPair(DerCmp, b, a);
    PermutedElementsEncode([a, b], [b, a]);
    SignerInfoSetRoundTrip([a, b], []);
    SignerInfoSetRoundTrip([b, a], []);
    assert [a, b] != [b, a] by {
      assert [a, b][0] == a && [b, a][0] == b;
    }
  }
}
