/** The NUL-terminated strings of sys/src/lib/string.c: length, comparison, and splitting at a delimiter. */
module CString {

  type Byte = bv8

  /** The text a pointer to s stands for: what comes before the first NUL. */
  function Text(s: seq<Byte>): (t: seq<Byte>)
    ensures |t| <= |s| && t == s[..|t|] && 0 !in t
    ensures 0 in s ==> |t| < |s| && s[|t|] == 0
  {
    if s == [] || s[0] == 0 then [] else [s[0]] + Text(s[1..])
  }

  lemma {:induction false} TextOf(s: seq<Byte>, n: nat)
    requires n < |s| && s[n] == 0 && 0 !in s[..n]
    ensures Text(s) == s[..n]
  {
  }

  function Count(t: seq<Byte>, d: Byte): nat {
    if t == [] then 0 else Count(t[..|t| - 1], d) + (if t[|t| - 1] == d then 1 else 0)
  }

  method Strlen(str: seq<Byte>) returns (n: nat)
    requires 0 in str
    ensures n == |Text(str)|
  {
    n := 0;
    while str[n] != 0
      invariant n <= |Text(str)|
      decreases |str| - n
    {
      n := n + 1;
    }
  }

  method Memcmp(str1: seq<Byte>, str2: seq<Byte>, n: nat) returns (r: int)
    requires n <= |str1| && n <= |str2|
    ensures r == 0 || r == 1
    ensures r == 0 <==> str1[..n] == str2[..n]
  {
    for i := 0 to n
      invariant str1[..i] == str2[..i]
    {
      if str1[i] != str2[i] {
        assert str1[..n][i] != str2[..n][i];
        return 1;
      }
    }
    return 0;
  }

  method StrdilmCount(str: seq<Byte>, dilm: Byte) returns (count: nat)
    requires 0 in str
    ensures count == Count(Text(str), dilm)
  {
    count := 0;
    var i: nat := 0;
    ghost var t := Text(str);
    while str[i] != 0
      invariant i <= |t| && count == Count(t[..i], dilm)
      decreases |str| - i
    {
      assert t[..i + 1][..i] == t[..i];
      if str[i] == dilm {
        count := count + 1;
      }
      i := i + 1;
    }
    assert t[..i] == t;
  }

  // ---- splitting and joining ----

  /** The runs between delimiters. */
  function Parts(t: seq<Byte>, d: Byte): (ps: seq<seq<Byte>>)
    ensures ps != []
  {
    if t == [] then [[]]
    else if t[0] == d then [[]] + Parts(t[1..], d)
    else var rest := Parts(t[1..], d); [[t[0]] + rest[0]] + rest[1..]
  }

  function Join(ps: seq<seq<Byte>>, d: Byte): seq<Byte>
    requires ps != []
  {
    if |ps| == 1 then ps[0] else ps[0] + [d] + Join(ps[1..], d)
  }

  ghost predicate Free(p: seq<Byte>, d: Byte) {
    d !in p
  }

  lemma PartsOfEmpty(d: Byte)
    ensures Parts([], d) == [[]]
  {
  }

  lemma PartsCons(t: seq<Byte>, d: Byte)
    requires t != []
    ensures var rest := Parts(t[1..], d);
            Parts(t, d) == if t[0] == d then [[]] + rest else [[t[0]] + rest[0]] + rest[1..]
  {
  }

  lemma JoinOne(p: seq<Byte>, d: Byte)
    ensures Join([p], d) == p
  {
  }

  lemma JoinCons(p: seq<Byte>, ps: seq<seq<Byte>>, d: Byte)
    requires ps != []
    ensures Join([p] + ps, d) == p + [d] + Join(ps, d)
  {
    assert ([p] + ps)[1..] == ps;
  }

  lemma JoinLonger(b: Byte, ps: seq<seq<Byte>>, d: Byte)
    requires ps != []
    ensures Join([[b] + ps[0]] + ps[1..], d) == [b] + Join(ps, d)
  {
    assert ([[b] + ps[0]] + ps[1..])[1..] == ps[1..];
    if |ps| > 1 {
      assert [b] + ps[0] + [d] + Join(ps[1..], d) == [b] + (ps[0] + [d] + Join(ps[1..], d));
    }
  }

  /** Joining what was split gives the text back, and no part holds the delimiter. */
  lemma {:induction false} JoinParts(t: seq<Byte>, d: Byte)
    ensures Join(Parts(t, d), d) == t
    ensures forall p :: p in Parts(t, d) ==> Free(p, d)
  {
    hide Parts, Join;
    if t == [] {
      PartsOfEmpty(d);
      JoinOne([], d);
    } else {
      JoinParts(t[1..], d);
      PartsCons(t, d);
      var rest := Parts(t[1..], d);
      assert t == [t[0]] + t[1..];
      assert rest[0] in rest;
      if t[0] == d {
        JoinCons([], rest, d);
      } else {
        JoinLonger(t[0], rest, d);
      }
    }
  }

  /** And splitting what was joined gives the parts back: no other parts free of the delimiter join to the text. */
  lemma {:induction false} PartsOfJoin(ps: seq<seq<Byte>>, d: Byte)
    requires ps != [] && forall p :: p in ps ==> Free(p, d)
    ensures Parts(Join(ps, d), d) == ps
    decreases |ps|, |ps[0]|
  {
    var t := Join(ps, d);
    assert ps[0] in ps;
    if ps[0] == [] {
      if |ps| > 1 {
        assert t == [d] + Join(ps[1..], d);
        assert forall p :: p in ps[1..] ==> p in ps;
        PartsOfJoin(ps[1..], d);
        assert ps == [[]] + ps[1..];
      }
    } else {
      var shorter := [ps[0][1..]] + ps[1..];
      assert shorter[1..] == ps[1..];
      assert t == [ps[0][0]] + Join(shorter, d);
      forall p | p in shorter ensures Free(p, d) {
        if p != shorter[0] { assert p in ps; }
      }
      PartsOfJoin(shorter, d);
      assert t[0] == ps[0][0] && t[1..] == Join(shorter, d);
      assert ps[0] == [t[0]] + shorter[0];
      assert ps == [ps[0]] + ps[1..];
    }
  }

  lemma {:induction false} CountCons(t: seq<Byte>, d: Byte)
    requires t != []
    ensures Count(t, d) == Count(t[1..], d) + (if t[0] == d then 1 else 0)
  {
    if |t| > 1 {
      var n := |t| - 1;
      CountCons(t[..n], d);
      assert t[..n][1..] == t[1..][..n - 1];
    }
  }

  lemma {:induction false} PartsCount(t: seq<Byte>, d: Byte)
    ensures |Parts(t, d)| == Count(t, d) + 1
  {
    if t != [] {
      CountCons(t, d);
      PartsCount(t[1..], d);
    }
  }

  /** The text from position p on, read as parts: stepping over a delimiter drops one part. */
  lemma DropPart(t: seq<Byte>, d: Byte, p: nat)
    requires p < |t|
    ensures t[p] == d ==> Parts(t[p..], d) == [[]] + Parts(t[p + 1..], d)
    ensures t[p] != d ==> Parts(t[p..], d) == [[t[p]] + Parts(t[p + 1..], d)[0]] + Parts(t[p + 1..], d)[1..]
  {
  }

  /** The first part is what comes before the first delimiter, or everything. */
  lemma {:induction false} FirstPart(t: seq<Byte>, d: Byte, n: nat)
    requires n <= |t| && d !in t[..n] && (n == |t| || t[n] == d)
    ensures Parts(t, d)[0] == t[..n]
  {
    if n > 0 {
      assert t[0] == t[..n][0];
      assert t[1..][..n - 1] == t[..n][1..];
      FirstPart(t[1..], d, n - 1);
      assert t[..n] == [t[0]] + t[1..][..n - 1];
    }
  }

  /** The inner loop of strsplit: step past the next delimiter, if there is one. */
  method SkipPart(str: seq<Byte>, dilm: Byte, from: nat) returns (found: bool, at: nat)
    requires 0 in str && from <= |Text(str)|
    ensures at <= |Text(str)|
    ensures found <==> |Parts(Text(str)[from..], dilm)| > 1
    ensures found ==> Parts(Text(str)[at..], dilm) == Parts(Text(str)[from..], dilm)[1..]
  {
    hide Parts;
    ghost var t := Text(str);
    ghost var rest := Parts(t[from..], dilm)[1..];
    PartsOfEmpty(dilm);
    at := from;
    while true
      invariant at <= |t| && Parts(t[at..], dilm)[1..] == rest
      decreases |t| - at
    {
      if str[at] == 0 {
        assert t[at..] == [];
        return false, at;
      }
      DropPart(t, dilm, at);
      if str[at] == dilm {
        return true, at + 1;
      }
      at := at + 1;
    }
  }

  /** The closing loop: copy up to the next delimiter into a zeroed buffer. */
  method CopyPart(str: seq<Byte>, dilm: Byte, from: nat, split: array<Byte>)
    requires 0 in str && from <= |Text(str)| && |Text(str)| - from < split.Length
    requires forall j :: 0 <= j < split.Length ==> split[j] == 0
    modifies split
    ensures 0 in split[..] && Text(split[..]) == Parts(Text(str)[from..], dilm)[0]
  {
    hide Parts, Text;
    ghost var t := Text(str);
    var at, n: nat := from, 0;
    while str[at] != 0
      invariant at <= |t| && n == at - from
      invariant split[..n] == t[from..at] && 0 !in split[..n]
      invariant forall j :: n <= j < split.Length ==> split[j] == 0
      invariant dilm !in t[from..at]
      decreases |t| - at
    {
      if str[at] == dilm || str[at] == 0 {
        split[n] := 0;
        break;
      }
      split[n] := str[at];
      assert str[at] == t[at];
      assert split[..n + 1] == split[..n] + [t[at]];
      assert t[from..at + 1] == t[from..at] + [t[at]];
      n := n + 1;
      at := at + 1;
    }
    assert t[from..][..n] == t[from..at];
    FirstPart(t[from..], dilm, n);
    assert split[..][..n] == split[..n];
    TextOf(split[..], n);
  }

  /** The buffer from kmalloc is taken to be zero-filled: the source terminates the copy itself only at a delimiter. */
  method Strsplit(str: seq<Byte>, dilm: Byte, idx: nat) returns (split: array?<Byte>)
    requires 0 in str
    ensures split == null <==> idx > Count(Text(str), dilm)
    ensures split != null ==> fresh(split) && 0 in split[..] && idx < |Parts(Text(str), dilm)|
                              && Text(split[..]) == Parts(Text(str), dilm)[idx]
  {
    ghost var t := Text(str);
    ghost var parts := Parts(t, dilm);
    PartsCount(t, dilm);
    var len := Strlen(str);
    split := new Byte[len + 1](_ => 0);
    var at: nat := 0;
    for i := 0 to idx
      invariant at <= |t| && i < |parts| && Parts(t[at..], dilm) == parts[i..]
      invariant forall j :: 0 <= j < split.Length ==> split[j] == 0
    {
      var found;
      found, at := SkipPart(str, dilm, at);
      if !found {
        return null;
      }
      assert parts[i..][1..] == parts[i + 1..];
    }
    CopyPart(str, dilm, at, split);
  }

  lemma {:induction false} PartShort(t: seq<Byte>, d: Byte, i: nat)
    requires i < |Parts(t, d)|
    ensures |Parts(t, d)[i]| <= |t|
  {
    if t != [] {
      var rest := Parts(t[1..], d);
      if t[0] == d {
        if i > 0 { PartShort(t[1..], d, i - 1); }
      } else {
        PartShort(t[1..], d, i);
      }
    }
  }
}
