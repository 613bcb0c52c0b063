/** The kernel heap, as the hash map sees it, and the account of what a map asked of it. */
module Allocation {
  import opened Bits
  import opened ProbeTable

  /** One call of hashmap_create: the size asked for, and the number its request to the heap has or would have had. */
  datatype CreateCall = CreateCall(size: nat, request: nat)

  /** A size, legal or wrapped to 0, that is at least twice that of a table of n slots. */
  ghost predicate AtLeastTwice(size: nat, n: nat) {
    size == 0 || (PowerOfTwo(size) && size >= 2 * n)
  }

  lemma TwiceAgain(size: nat, n: nat)
    requires n > 0 && 2 * n < U32 && AtLeastTwice(size, 2 * n)
    ensures AtLeastTwice(size, n) && size != Doubled(n)
  {
  }

  /** How many of the calls came as far as the heap: those for a legal size. */
  ghost function Requests(calls: seq<CreateCall>): nat {
    if calls == [] then 0 else
      Requests(calls[..|calls| - 1]) + (if PowerOfTwo(calls[|calls| - 1].size) then 1 else 0)
  }

  /** Each call carries the number of its own request, counted from the given one. */
  ghost predicate Numbered(calls: seq<CreateCall>, from: nat) {
    calls == [] ||
      (Numbered(calls[..|calls| - 1], from) && calls[|calls| - 1].request == from + Requests(calls[..|calls| - 1]))
  }

  lemma {:induction false} RequestsAppend(a: seq<CreateCall>, b: seq<CreateCall>, from: nat)
    requires Numbered(a, from) && Numbered(b, from + Requests(a))
    ensures Requests(a + b) == Requests(a) + Requests(b) && Numbered(a + b, from)
  {
    if b == [] {
      assert a + b == a;
    } else {
      var n := |b| - 1;
      RequestsAppend(a, b[..n], from);
      assert (a + b)[..|a + b| - 1] == a + b[..n];
    }
  }

  ghost function Last(calls: seq<CreateCall>): nat
    requires calls != []
  {
    calls[|calls| - 1].size
  }

  /** The size of a table of n slots once all the calls have been served. */
  ghost function SizeAfter(calls: seq<CreateCall>, n: nat): nat {
    if calls == [] then n else Last(calls)
  }

  lemma LastAppend(a: seq<CreateCall>, b: seq<CreateCall>)
    requires b != []
    ensures a + b != [] && Last(a + b) == Last(b)
  {
  }

  /** The k-th request succeeds iff grants(k). */
  class Allocator {
    const grants: nat -> bool
    var asked: nat

    constructor (grants: nat -> bool)
      ensures this.grants == grants && asked == 0
    {
      this.grants, asked := grants, 0;
    }

    method Kcalloc<V>(n: nat, nil: V) returns (block: array?<Element<V>>)
      modifies this`asked
      ensures asked == old(asked) + 1
      ensures block != null <==> grants(old(asked))
      ensures block != null ==> fresh(block) && block[..] == seq(n, _ => Blank(nil))
    {
      var ok := grants(asked);
      asked := asked + 1;
      block := null;
      if ok {
        block := new Element<V>[n](_ => Blank(nil));
        assert block[..] == seq(n, _ => Blank(nil));
      }
    }

    /** What it takes for a call to succeed: a legal size, and the heap's consent. */
    ghost predicate Served(call: CreateCall) {
      PowerOfTwo(call.size) && grants(call.request)
    }

    ghost function Refusals(calls: seq<CreateCall>): nat {
      if calls == [] then 0 else
        Refusals(calls[..|calls| - 1]) + (if Served(calls[|calls| - 1]) then 0 else 1)
    }

    /** Calls numbered from the given request on, each for twice the size before, n at first, of which all were served, or
        all but the last. */
    ghost predicate Account(calls: seq<CreateCall>, from: nat, n: nat, ok: bool) {
      && (!ok ==> calls != [])
      && forall i :: 0 <= i < |calls| ==> AccountAt(calls, from, n, ok, i)
    }

    ghost predicate AccountAt(calls: seq<CreateCall>, from: nat, n: nat, ok: bool, i: nat)
      requires i < |calls|
    {
      && calls[i].request == from + i && calls[i].size == Doubled(if i == 0 then n else calls[i - 1].size)
      && (Served(calls[i]) <==> ok || i < |calls| - 1)
    }

    /** The same, and these are all the requests there have been since. */
    ghost predicate Trail(calls: seq<CreateCall>, from: nat, n: nat, ok: bool)
      reads this
    {
      Account(calls, from, n, ok) && asked == from + |calls| - (if ok || PowerOfTwo(Last(calls)) then 0 else 1)
    }

    lemma NoCalls(n: nat)
      ensures Trail([], asked, n, true)
    {
    }

    lemma AccountAppend(a: seq<CreateCall>, b: seq<CreateCall>, from: nat, n: nat, ok: bool)
      requires Account(a, from, n, true) && Account(b, from + |a|, SizeAfter(a, n), ok)
      ensures Account(a + b, from, n, ok)
    {
      forall i | 0 <= i < |a + b| ensures AccountAt(a + b, from, n, ok, i) {
        if i < |a| {
          assert AccountAt(a, from, n, true, i);
        } else {
          assert AccountAt(b, from + |a|, SizeAfter(a, n), ok, i - |a|);
        }
      }
    }

    lemma TrailAppend(a: seq<CreateCall>, b: seq<CreateCall>, from: nat, n: nat, mid: nat, size: nat, ok: bool)
      requires Account(a, from, n, true) && mid == from + |a| && size == SizeAfter(a, n) && Trail(b, mid, size, ok)
      ensures Trail(a + b, from, n, ok) && SizeAfter(a + b, n) == SizeAfter(b, size)
    {
      AccountAppend(a, b, from, n, ok);
    }

    /** One refusal if it ended in failure, none otherwise. */
    lemma {:induction false} AccountCounts(calls: seq<CreateCall>, from: nat, n: nat, ok: bool)
      requires Account(calls, from, n, ok)
      ensures Refusals(calls) == if ok then 0 else 1
      ensures Numbered(calls, from)
      ensures Requests(calls) == |calls| - (if ok || PowerOfTwo(Last(calls)) then 0 else 1)
      decreases |calls|
    {
      if calls != [] {
        var last := |calls| - 1;
        var init := calls[..last];
        assert AccountAt(calls, from, n, ok, last);
        forall i | 0 <= i < last ensures AccountAt(init, from, n, true, i) {
          assert AccountAt(calls, from, n, ok, i);
        }
        AccountCounts(init, from, n, true);
      }
    }

    /** Up to the i-th call: a power of two, as many times doubled, unless the doubling has wrapped to 0. */
    lemma {:induction false} SizesGrow(calls: seq<CreateCall>, from: nat, n: nat, ok: bool, i: nat)
      requires Account(calls, from, n, ok) && PowerOfTwo(n) && n < U32 && i < |calls|
      ensures calls[i].size < U32 && AtLeastTwice(calls[i].size, n)
      ensures calls[i].size != 0 ==> calls[i].size >= Pow2(i + 1)
    {
      assert AccountAt(calls, from, n, ok, i);
      if i == 0 {
        DoubleWraps(n);
      } else {
        assert AccountAt(calls, from, n, ok, i - 1);
        SizesGrow(calls, from, n, ok, i - 1);
        DoubleWraps(calls[i - 1].size);
      }
    }

    /** While calls are served the size doubles exactly. */
    lemma {:induction false} SizeAt(calls: seq<CreateCall>, from: nat, n: nat, ok: bool, k: nat, i: nat)
      requires Account(calls, from, n, ok) && n == Pow2(k) < U32 && i < |calls| && (ok || i < |calls| - 1)
      ensures calls[i].size == Pow2(k + i + 1) < U32
    {
      assert AccountAt(calls, from, n, ok, i);
      if i > 0 {
        SizeAt(calls, from, n, ok, k, i - 1);
      }
      PowIsPower(k + i);
      DoubleWraps(Pow2(k + i));
    }

    /** What was refused: a size at least doubled. */
    lemma RefusedTwice(calls: seq<CreateCall>, from: nat, n: nat)
      requires Account(calls, from, n, false) && PowerOfTwo(n) && n < U32
      ensures AtLeastTwice(Last(calls), n)
    {
      SizesGrow(calls, from, n, false, |calls| - 1);
    }

    /** No growth takes more than 32 calls. */
    lemma AtMost32(calls: seq<CreateCall>, from: nat, n: nat, ok: bool)
      requires Account(calls, from, n, ok) && PowerOfTwo(n) && n < U32
      ensures |calls| <= 32
    {
      if |calls| > 32 {
        assert AccountAt(calls, from, n, ok, 31);
        SizesGrow(calls, from, n, ok, 31);
        WordPowers();
      }
    }

    /** When the heap refuses nothing, growth can only fail where the size has wrapped to 0. */
    lemma RefusedSize(calls: seq<CreateCall>, from: nat, n: nat)
      requires Account(calls, from, n, false) && PowerOfTwo(n) && n < U32 && forall k :: grants(k)
      ensures Last(calls) == 0
    {
      RefusedTwice(calls, from, n);
      assert AccountAt(calls, from, n, false, |calls| - 1);
    }

    /** When the heap refuses nothing, growth fails exactly where it has doubled 32 times from size 1. */
    lemma WrapsAt32(calls: seq<CreateCall>, from: nat, n: nat, k: nat)
      requires Account(calls, from, n, false) && n == Pow2(k) < U32 && forall k :: grants(k)
      ensures k + |calls| == 32
    {
      var last := |calls| - 1;
      assert AccountAt(calls, from, n, false, last);
      if last > 0 {
        SizeAt(calls, from, n, false, k, last - 1);
      }
      PowIsPower(k);
      PowIsPower(k + last);
      DoubleWraps(Pow2(k + last));
      RefusedSize(calls, from, n);
      WordPowers();
      PowGrows(k + last, 31);
      PowGrows(31, k + last);
    }

    lemma {:induction false} RefusalsAppend(a: seq<CreateCall>, b: seq<CreateCall>)
      ensures Refusals(a + b) == Refusals(a) + Refusals(b)
    {
      if b == [] {
        assert a + b == a;
      } else {
        RefusalsAppend(a, b[..|b| - 1]);
        assert (a + b)[..|a + b| - 1] == a + b[..|b| - 1];
      }
    }
  }
}
