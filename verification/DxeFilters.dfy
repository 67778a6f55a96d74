/** The filters that decide which external symbols `write_dxe` exports. */
module DxeFilters {
  import opened DxeFormat

  /** The prefix `__GLOBAL_$` and the names that the compiler and the linker make up. */
  const GLOBAL_PREFIX: Name := [95, 95, 71, 76, 79, 66, 65, 76, 95, 36]
  const FIRST_CTOR: Name := [100, 106, 103, 112, 112, 95, 102, 105, 114, 115, 116, 95, 99, 116, 111, 114]
  const LAST_CTOR: Name := [100, 106, 103, 112, 112, 95, 108, 97, 115, 116, 95, 99, 116, 111, 114]
  const FIRST_DTOR: Name := [100, 106, 103, 112, 112, 95, 102, 105, 114, 115, 116, 95, 100, 116, 111, 114]
  const LAST_DTOR: Name := [100, 106, 103, 112, 112, 95, 108, 97, 115, 116, 95, 100, 116, 111, 114]
  const EH_FRAME_BEGIN: Name :=
    [95, 95, 95, 69, 72, 95, 70, 82, 65, 77, 69, 95, 66, 69, 71, 73, 78, 95, 95]
  const EH_FRAME_END: Name := [95, 95, 95, 69, 72, 95, 70, 82, 65, 77, 69, 95, 69, 78, 68, 95, 95]

  /** A name as characters. */
  function Ascii(name: Name): string {
    seq(|name|, i requires 0 <= i < |name| => name[i] as char)
  }

  /** How the names are spelled. */
  lemma PrefixSpelled()
    ensures Ascii(GLOBAL_PREFIX) == "__GLOBAL_$"
  {
  }

  lemma CtorsSpelled()
    ensures Ascii(FIRST_CTOR) == "djgpp_first_ctor" && Ascii(LAST_CTOR) == "djgpp_last_ctor"
  {
  }

  lemma DtorsSpelled()
    ensures Ascii(FIRST_DTOR) == "djgpp_first_dtor" && Ascii(LAST_DTOR) == "djgpp_last_dtor"
  {
  }

  lemma FramesSpelled()
    ensures Ascii(EH_FRAME_BEGIN) == "___EH_FRAME_BEGIN__" && Ascii(EH_FRAME_END) == "___EH_FRAME_END__"
  {
  }

  predicate MadeUp(name: Name) {
    || GLOBAL_PREFIX <= name
    || name == FIRST_CTOR || name == LAST_CTOR || name == FIRST_DTOR || name == LAST_DTOR
    || name == EH_FRAME_BEGIN || name == EH_FRAME_END
  }

  predicate AnyPrefix(ps: seq<Name>, name: Name) {
    exists j :: 0 <= j < |ps| && ps[j] <= name
  }

  /** The loops over the excluded and the exported prefixes. */
  method HasPrefix(ps: seq<Name>, name: Name) returns (ok: bool)
    ensures ok <==> AnyPrefix(ps, name)
  {
    for j := 0 to |ps|
      invariant forall k :: 0 <= k < j ==> !(ps[k] <= name)
    {
      if ps[j] <= name {
        return true;
      }
    }
    return false;
  }

  /** The names of the export list that have not been crossed out. */
  function Left(wanted: seq<Option<Name>>): multiset<Name> {
    if wanted == [] then multiset{}
    else if wanted[0].Some? then multiset{wanted[0].value} + Left(wanted[1..])
    else Left(wanted[1..])
  }

  /** The first entry with a name crossed out. */
  function CrossedOut(wanted: seq<Option<Name>>, name: Name): (r: seq<Option<Name>>)
    ensures |r| == |wanted|
  {
    if wanted == [] then []
    else if wanted[0] == Some(name) then [None] + wanted[1..]
    else [wanted[0]] + CrossedOut(wanted[1..], name)
  }

  /** The loop over the export list. */
  method CrossOut(names: array<Option<Name>>, name: Name) returns (ok: bool)
    modifies names
    ensures ok <==> Some(name) in old(names[..])
    ensures names[..] == CrossedOut(old(names[..]), name)
  {
    ok := false;
    ghost var was := names[..];
    for j := 0 to names.Length
      invariant names[..] == was && Some(name) !in was[..j]
    {
      if names[j] == Some(name) {
        FirstCrossed(was, name, j);
        names[j] := None;
        return true;
      }
      assert was[..j + 1] == was[..j] + [was[j]];
    }
    assert was[..names.Length] == was;
    NoneCrossed(was, name);
  }

  lemma {:induction false} FirstCrossed(wanted: seq<Option<Name>>, name: Name, j: nat)
    requires j < |wanted| && wanted[j] == Some(name) && Some(name) !in wanted[..j]
    ensures CrossedOut(wanted, name) == wanted[j := None]
    decreases j
  {
    if j > 0 {
      assert wanted[0] in wanted[..j];
      assert wanted[1..][..j - 1] == wanted[..j][1..];
      FirstCrossed(wanted[1..], name, j - 1);
    }
  }

  lemma {:induction false} NoneCrossed(wanted: seq<Option<Name>>, name: Name)
    requires Some(name) !in wanted
    ensures CrossedOut(wanted, name) == wanted
    decreases |wanted|
  {
    if wanted != [] {
      NoneCrossed(wanted[1..], name);
    }
  }

  /** Crossing out takes one occurrence of the name from what is left, if there is one. */
  lemma {:induction false} LeftCrossed(wanted: seq<Option<Name>>, name: Name)
    ensures Some(name) in wanted <==> name in Left(wanted)
    ensures Left(CrossedOut(wanted, name)) == Left(wanted) - multiset{name}
    decreases |wanted|
  {
    if wanted != [] {
      var crossed := CrossedOut(wanted, name);
      if wanted[0] == Some(name) {
        assert crossed[1..] == wanted[1..];
      } else {
        LeftCrossed(wanted[1..], name);
        assert crossed[1..] == CrossedOut(wanted[1..], name);
      }
    }
  }

  /** The export list before anything is crossed out. */
  function AllWanted(names: seq<Name>): seq<Option<Name>> {
    seq(|names|, k requires 0 <= k < |names| => Some(names[k]))
  }

  lemma {:induction false} AllLeft(names: seq<Name>)
    ensures Left(AllWanted(names)) == multiset(names)
    decreases |names|
  {
    if names != [] {
      AllLeft(names[1..]);
      assert AllWanted(names)[1..] == AllWanted(names[1..]);
      assert names == [names[0]] + names[1..];
    }
  }
}
