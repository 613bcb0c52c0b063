/** What a path means: the chain of names it spells, and whether it insists on a directory. */
module Paths {
  import opened CString

  const SLASH: Byte := 0x2F

  type Name = seq<Byte>

  /** A name a node can be reached by: not empty, and free of slashes and NULs. */
  predicate Proper(name: Name) {
    name != [] && SLASH !in name && 0 !in name
  }

  predicate Wrapped(names: seq<Name>) {
    forall i :: 0 <= i < |names| ==> Proper(names[i])
  }

  /** Whether the text after the leading slash ends in a slash; the source takes the empty text to, because the
      character before it is the leading slash. */
  predicate WantsDirectory(t: seq<Byte>) {
    t == [] || t[|t| - 1] == SLASH
  }

  /** The names the loop of vfs_path_to_node looks up, for the text after the leading slash. */
  function Components(t: seq<Byte>): seq<Name> {
    var ps := Parts(t, SLASH);
    if WantsDirectory(t) then ps[..|ps| - 1] else ps
  }

  lemma {:induction false} JoinSnoc(ps: seq<Name>, p: Name, d: Byte)
    requires ps != []
    ensures Join(ps + [p], d) == Join(ps, d) + [d] + p
  {
    if |ps| > 1 {
      assert (ps + [p])[1..] == ps[1..] + [p];
      JoinSnoc(ps[1..], p, d);
    } else {
      assert (ps + [p])[1..] == [p];
    }
  }

  lemma {:induction false} JoinEndsInName(names: seq<Name>)
    requires names != [] && Wrapped(names)
    ensures var t := Join(names, SLASH); t != [] && t[|t| - 1] != SLASH
  {
    if |names| > 1 {
      JoinEndsInName(names[1..]);
    } else {
      assert Proper(names[0]);
    }
  }

  lemma SplitsBack(names: seq<Name>)
    requires names != [] && Wrapped(names)
    ensures Parts(Join(names, SLASH), SLASH) == names
  {
    forall p | p in names ensures Free(p, SLASH) {
      var i :| 0 <= i < |names| && names[i] == p;
      assert Proper(names[i]);
    }
    PartsOfJoin(names, SLASH);
  }

  /** Names joined by slashes spell those names, as a file. */
  lemma PlainPath(names: seq<Name>)
    requires names != [] && Wrapped(names)
    ensures var t := Join(names, SLASH); Components(t) == names && !WantsDirectory(t)
  {
    SplitsBack(names);
    JoinEndsInName(names);
  }

  /** With a slash after them they spell the same names, as a directory. */
  lemma DirectoryPath(names: seq<Name>)
    requires names != [] && Wrapped(names)
    ensures var t := Join(names, SLASH) + [SLASH]; Components(t) == names && WantsDirectory(t)
  {
    JoinSnoc(names, [], SLASH);
    assert Join(names, SLASH) + [SLASH] + [] == Join(names, SLASH) + [SLASH];
    var ps := names + [[]];
    forall p | p in ps ensures Free(p, SLASH) {
      if p in names {
        var i :| 0 <= i < |names| && names[i] == p;
        assert Proper(names[i]);
      }
    }
    PartsOfJoin(ps, SLASH);
    assert ps[..|ps| - 1] == names;
  }

  lemma EndsInEmpty(t: seq<Byte>)
    requires t != [] && t[|t| - 1] == SLASH
    ensures var ps := Parts(t, SLASH);
            |ps| > 1 && ps[|ps| - 1] == [] && t == Join(ps[..|ps| - 1], SLASH) + [SLASH]
  {
    hide Parts;
    var ps := Parts(t, SLASH);
    JoinParts(t, SLASH);
    var init, last := ps[..|ps| - 1], ps[|ps| - 1];
    assert Free(last, SLASH);
    assert |ps| == 1 ==> ps == [last];
    if |ps| > 1 {
      JoinSnoc(init, last, SLASH);
      assert ps == init + [last];
    }
  }

  /** The other way round: what a text spells, joined by slashes, is the text, less the slash at its end if it has one. */
  lemma SpeltBack(t: seq<Byte>)
    requires Components(t) != []
    ensures t == Join(Components(t), SLASH) + (if WantsDirectory(t) then [SLASH] else [])
  {
    if t != [] {
      if WantsDirectory(t) {
        EndsInEmpty(t);
      } else {
        JoinParts(t, SLASH);
      }
    }
  }

  lemma RootPath()
    ensures Components([]) == [] && WantsDirectory([])
  {
  }

  /** How many names the loop looks up, as the source counts them. */
  lemma ComponentCount(t: seq<Byte>)
    ensures |Components(t)| == Count(t, SLASH) + (if WantsDirectory(t) then 0 else 1)
  {
    PartsCount(t, SLASH);
  }

  lemma ComponentAt(t: seq<Byte>, i: nat)
    requires i < |Components(t)|
    ensures i < |Parts(t, SLASH)| == Count(t, SLASH) + 1
    ensures Components(t)[i] == Parts(t, SLASH)[i] && |Components(t)[i]| <= |t|
  {
    PartsCount(t, SLASH);
    PartShort(t, SLASH, i);
  }
}
