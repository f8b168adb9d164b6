/** The ordered address lists the contract keeps (the signer list and each
    transaction's approval list) and the two ways it edits them: appending an
    address that is absent, and filtering one out. */
module SignerLists {
  import opened MultiSigTypes

  /** No address occurs twice. */
  ghost predicate NoDup(s: seq<Address>) {
    forall i, j :: 0 <= i < j < |s| ==> s[i] != s[j]
  }

  /** Appending an address that is absent keeps a list free of repeats. */
  lemma NoDupSnoc(s: seq<Address>, x: Address)
    ensures NoDup(s) && x !in s ==> NoDup(s + [x])
  {
  }

  /** A list without repeats stays so when its last address is dropped, and
      that address did not occur before it. */
  lemma NoDupUnsnoc(s: seq<Address>, x: Address)
    requires NoDup(s + [x])
    ensures NoDup(s) && x !in s
  {
    assert forall i :: 0 <= i < |s| ==> (s + [x])[i] == s[i];
    assert (s + [x])[|s|] == x;
  }

  /** Append `a` unless it is already present: the add branch of the signer
      list update and the append of an approval. */
  function AppendIfAbsent(list: seq<Address>, a: Address): (r: seq<Address>)
    ensures a in r
    ensures forall b :: b in r <==> b in list || b == a
    ensures |list| <= |r| <= |list| + 1 && r[..|list|] == list
    ensures a in list ==> r == list
    ensures NoDup(list) ==> NoDup(r)
  {
    if a in list then list
    else
      NoDupSnoc(list, a);
      list + [a]
  }

  /** The list left after appending every address of `xs`, in order, each only
      if absent: what registering a batch of signers stores. */
  function AppendAllAbsent(list: seq<Address>, xs: seq<Address>): (r: seq<Address>)
    decreases |xs|
    ensures |list| <= |r| <= |list| + |xs|
    ensures r[..|list|] == list
    ensures forall b :: b in r <==> b in list || b in xs
    ensures NoDup(list) ==> NoDup(r)
  {
    if xs == [] then list
    else
      var init := xs[..|xs| - 1];
      assert xs == init + [xs[|xs| - 1]];
      AppendIfAbsent(AppendAllAbsent(list, init), xs[|xs| - 1])
  }

  /** `xs` with repeated addresses dropped, keeping first occurrences. */
  function Dedup(xs: seq<Address>): seq<Address> {
    AppendAllAbsent([], xs)
  }

  /** `list` without any occurrence of `a`, order kept: the filtering loop of
      the signer list update. Every other address keeps its number of
      occurrences, and on a list without repeats the kept addresses stay in
      their original order. */
  function Without(list: seq<Address>, a: Address): (r: seq<Address>)
    decreases |list|
    ensures a !in r
    ensures forall b :: b in r <==> b in list && b != a
    ensures multiset(r) == multiset(list)[a := 0]
    ensures |r| <= |list|
    ensures a !in list ==> r == list
    ensures NoDup(list) ==> NoDup(r)
    ensures NoDup(list) && a in list ==> |r| == |list| - 1
  {
    if list == [] then []
    else
      var init, last := list[..|list| - 1], list[|list| - 1];
      assert list == init + [last];
      assert multiset(list) == multiset(init) + multiset{last};
      assert NoDup(list) ==> NoDup(init) && last !in init;
      var rest := Without(init, a);
      if last == a then rest
      else
        NoDupSnoc(rest, last);
        rest + [last]
  }

  /** Position of the first occurrence of `a` in `xs`. */
  function IndexOf(xs: seq<Address>, a: Address): (k: nat)
    requires a in xs
    ensures k < |xs| && xs[k] == a && a !in xs[..k]
  {
    if xs[0] == a then 0
    else
      assert xs == [xs[0]] + xs[1..];
      1 + IndexOf(xs[1..], a)
  }

  /** Appending to a list does not move the first occurrence of an address
      that was already in it. */
  lemma {:induction false} IndexOfExtend(xs: seq<Address>, x: Address, a: Address)
    requires a in xs
    ensures IndexOf(xs + [x], a) == IndexOf(xs, a)
  {
    if xs[0] != a {
      assert xs == [xs[0]] + xs[1..];
      assert (xs + [x])[1..] == xs[1..] + [x];
      IndexOfExtend(xs[1..], x, a);
    }
  }

  /** `IndexOfExtend` for every address of the list at once. */
  lemma IndexOfExtendAll(xs: seq<Address>, x: Address)
    ensures forall b :: b in xs ==> IndexOf(xs + [x], b) == IndexOf(xs, b)
  {
    forall b | b in xs ensures IndexOf(xs + [x], b) == IndexOf(xs, b) {
      IndexOfExtend(xs, x, b);
    }
  }

  /** The addresses of `r`, all taken from `xs`, appear in the order of their
      first occurrences in `xs`. */
  ghost predicate InOrderOf(r: seq<Address>, xs: seq<Address>)
    requires forall b :: b in r ==> b in xs
  {
    forall i, j :: 0 <= i < j < |r| ==> IndexOf(xs, r[i]) < IndexOf(xs, r[j])
  }

  /** Appending a new address to `xs` keeps `r` in order, and `r` followed by
      that address is in order too. */
  lemma InOrderOfSnoc(r: seq<Address>, xs: seq<Address>, x: Address)
    requires forall b :: b in r ==> b in xs
    requires x !in xs && InOrderOf(r, xs)
    ensures InOrderOf(r, xs + [x])
    ensures InOrderOf(r + [x], xs + [x])
  {
    IndexOfExtendAll(xs, x);
    assert IndexOf(xs + [x], x) == |xs|;
    forall i, j | 0 <= i < j < |r + [x]|
      ensures IndexOf(xs + [x], (r + [x])[i]) < IndexOf(xs + [x], (r + [x])[j])
    {
      assert (r + [x])[i] == r[i];
      if j < |r| {
        assert (r + [x])[j] == r[j];
      }
    }
  }

  /** On a list without repeats, filtering keeps the remaining addresses in
      their original order. */
  lemma {:induction false} WithoutKeepsOrder(list: seq<Address>, a: Address)
    requires NoDup(list)
    ensures forall i, j :: 0 <= i < j < |Without(list, a)| ==>
              IndexOf(list, Without(list, a)[i]) < IndexOf(list, Without(list, a)[j])
  {
    if list != [] {
      var init, last := list[..|list| - 1], list[|list| - 1];
      assert list == init + [last];
      NoDupUnsnoc(init, last);
      WithoutKeepsOrder(init, a);
      var rest := Without(init, a);
      assert InOrderOf(rest, init);
      InOrderOfSnoc(rest, init, last);
      if last == a {
        assert Without(list, a) == rest;
        assert InOrderOf(Without(list, a), list);
      } else {
        assert Without(list, a) == rest + [last];
        assert InOrderOf(Without(list, a), list);
      }
    }
  }

  /** Appending a list with no repeats and nothing in common with `list`
      appends it whole. */
  lemma {:induction false} AppendAllDistinct(list: seq<Address>, xs: seq<Address>)
    requires NoDup(list + xs)
    ensures AppendAllAbsent(list, xs) == list + xs
  {
    if xs != [] {
      var init, last := xs[..|xs| - 1], xs[|xs| - 1];
      assert list + xs == (list + init) + [last];
      NoDupUnsnoc(list + init, last);
      AppendAllDistinct(list, init);
    }
  }

  /** Deduplicating a list with no repeats returns it unchanged. */
  lemma DedupDistinct(xs: seq<Address>)
    requires NoDup(xs)
    ensures Dedup(xs) == xs
  {
    assert [] + xs == xs;
    AppendAllDistinct([], xs);
  }

  /** Dedup keeps first-occurrence order: of two addresses in the result, the
      earlier one occurs first in the input. With NoDup and the same elements
      this determines the result completely. */
  lemma {:induction false} DedupFirstOccurrenceOrder(xs: seq<Address>)
    ensures NoDup(Dedup(xs))
    ensures forall b :: b in Dedup(xs) <==> b in xs
    ensures forall i, j :: 0 <= i < j < |Dedup(xs)| ==>
              IndexOf(xs, Dedup(xs)[i]) < IndexOf(xs, Dedup(xs)[j])
  {
    if xs != [] {
      var init, last := xs[..|xs| - 1], xs[|xs| - 1];
      assert xs == init + [last];
      DedupFirstOccurrenceOrder(init);
      var d := Dedup(init);
      forall b | b in d ensures IndexOf(xs, b) == IndexOf(init, b) && IndexOf(init, b) < |init| {
        IndexOfExtend(init, last, b);
      }
      if last !in d {
        assert last !in init;
        assert Dedup(xs) == d + [last];
      }
    }
  }

  /** Adding the same address twice leaves the list as adding it once. */
  lemma AppendIfAbsentIdempotent(list: seq<Address>, a: Address)
    ensures AppendIfAbsent(AppendIfAbsent(list, a), a) == AppendIfAbsent(list, a)
  {
  }

  /** The intended removal: if the flags and a duplicate-free list name the
      same addresses, filtering `a` out of the list keeps them in step with the
      flags after `a`'s flag is cleared, and shrinks the list by one exactly
      when `a` was listed. */
  lemma WithoutKeepsFlagsInStep(list: seq<Address>, flags: set<Address>, a: Address)
    requires NoDup(list)
    requires forall b :: b in flags <==> b in list
    ensures NoDup(Without(list, a))
    ensures forall b :: b in flags - {a} <==> b in Without(list, a)
    ensures |Without(list, a)| == if a in flags then |list| - 1 else |list|
  {
  }
}
