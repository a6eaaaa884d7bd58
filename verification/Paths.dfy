/** What `safe_join` makes of a name: the name as its components. */
module Paths {
  import opened Errors
  import opened Disk

  // ---------- names as components ----------

  /** Components joined by slashes. */
  function Slashed(parts: seq<string>): string
    requires parts != []
  {
    if |parts| == 1 then parts[0] else parts[0] + "/" + Slashed(parts[1..])
  }

  predicate NoSlash(c: string) {
    '/' !in c
  }

  predicate AreComponents(parts: seq<string>) {
    parts != [] && forall i :: 0 <= i < |parts| ==> NoSlash(parts[i])
  }

  lemma SlashedFirst(parts: seq<string>)
    requires parts != []
    ensures Slashed([""] + parts) == "/" + Slashed(parts)
  {
    assert ([""] + parts)[1..] == parts;
  }

  lemma SlashedMore(c: char, first: string, rest: seq<string>)
    ensures Slashed([[c] + first] + rest) == [c] + Slashed([first] + rest)
  {
    assert ([[c] + first] + rest)[1..] == rest == ([first] + rest)[1..];
  }

  lemma NoSlashMore(c: char, first: string)
    requires c != '/'
    ensures NoSlash([c] + first) <==> NoSlash(first)
  {
  }

  /** Every name is its components joined by slashes ... */
  lemma {:induction false} EveryName(name: string)
    ensures AreComponents(Split(name)) && Slashed(Split(name)) == name
  {
    if name != "" {
      hide NoSlash, Slashed;
      var rest := Split(name[1..]);
      EveryName(name[1..]);
      if name[0] == '/' {
        SlashedFirst(rest);
        EmptyHasNone();
        assert name == "/" + name[1..];
      } else {
        assert rest == [rest[0]] + rest[1..];
        SlashedMore(name[0], rest[0], rest[1..]);
        NoSlashMore(name[0], rest[0]);
        assert name == [name[0]] + name[1..];
      }
    } else {
      EmptyHasNone();
    }
  }

  lemma EmptyHasNone()
    ensures NoSlash("") && Slashed([""]) == ""
  {
  }

  /** ... and of no others. */
  lemma {:induction false} SplitSlashed(parts: seq<string>)
    requires AreComponents(parts)
    ensures Split(Slashed(parts)) == parts
    decreases |parts|, |parts[0]|
  {
    var c, rest := parts[0], parts[1..];
    assert parts == [c] + rest;
    assert NoSlash(c);
    if c == "" {
      if rest == [] {
        assert parts == [""];
      } else {
        hide Slashed;
        SlashedFirst(rest);
        SplitSlashed(rest);
        assert Slashed(parts)[1..] == Slashed(rest);
      }
    } else {
      hide Slashed;
      assert c == [c[0]] + c[1..] && c[0] in c;
      NoSlashMore(c[0], c[1..]);
      var shorter := [c[1..]] + rest;
      forall i | 0 <= i < |shorter| ensures NoSlash(shorter[i]) {
        assert i > 0 ==> shorter[i] == parts[i];
      }
      SplitSlashed(shorter);
      SlashedMore(c[0], c[1..], rest);
      assert Slashed(parts)[1..] == Slashed(shorter);
      assert shorter[0] == c[1..] && shorter[1..] == rest;
    }
  }

  // ---------- the join ----------

  /** A component that is a file or directory name. */
  predicate IsPlain(c: string) {
    c != "" && c != "." && c != ".."
  }

  lemma {:induction false} NormalOfPlain(parts: seq<string>)
    requires forall i :: 0 <= i < |parts| ==> IsPlain(parts[i])
    ensures Normal(parts) == parts
  {
    if parts != [] {
      NormalOfPlain(parts[1..]);
      assert parts == [parts[0]] + parts[1..];
    }
  }

  /** Plain components are joined to the destination, all of them, in order. */
  lemma PlainJoins(dest: Path, parts: seq<string>)
    requires AreComponents(parts) && forall i :: 0 <= i < |parts| ==> IsPlain(parts[i])
    ensures SafeJoin(dest, Slashed(parts)) == Ok(dest + parts)
  {
    SplitSlashed(parts);
    NormalOfPlain(parts);
    StartsPlain(parts);
  }

  lemma StartsPlain(parts: seq<string>)
    requires AreComponents(parts) && parts[0] != ""
    ensures Slashed(parts) != "" && Slashed(parts)[0] != '/'
  {
    assert NoSlash(parts[0]);
    assert Slashed(parts)[0] == parts[0][0] && parts[0][0] in parts[0];
  }

  lemma {:induction false} NormalAppend(a: seq<string>, b: seq<string>)
    ensures Normal(a + b) == Normal(a) + Normal(b)
  {
    if a == [] {
      assert a + b == b;
    } else {
      NormalAppend(a[1..], b);
      assert (a + b)[1..] == a[1..] + b && (a + b)[0] == a[0];
    }
  }

  /** Empty components and single dots behind the first component make no difference. */
  lemma DotsDropped(dest: Path, a: seq<string>, dot: string, b: seq<string>)
    requires AreComponents(a + b) && a != [] && a[0] != "" && (dot == "" || dot == ".")
    ensures SafeJoin(dest, Slashed(a + [dot] + b)) == SafeJoin(dest, Slashed(a + b))
  {
    var with, without := a + [dot] + b, a + b;
    assert NoSlash(dot);
    forall i | 0 <= i < |with| ensures NoSlash(with[i]) {
      if i > |a| {
        assert with[i] == without[i - 1];
      } else if i < |a| {
        assert with[i] == without[i];
      }
    }
    assert with[0] == a[0] == without[0];
    hide SafeJoin, Slashed, Normal;
    JoinIs(dest, with);
    JoinIs(dest, without);
    NormalAppend(a + [dot], b);
    NormalAppend(a, [dot]);
    NormalAppend(a, b);
    NothingNormal(dot);
    assert Normal(a) + [] == Normal(a);
    assert ".." in with <==> ".." in without;
  }

  lemma JoinIs(dest: Path, parts: seq<string>)
    requires AreComponents(parts) && parts[0] != ""
    ensures SafeJoin(dest, Slashed(parts))
         == if ".." in parts then Err(PathTraversal)
            else if Normal(parts) == [] then Err(CorruptedFile)
            else Ok(dest + Normal(parts))
  {
    SplitSlashed(parts);
    StartsPlain(parts);
  }

  lemma NothingNormal(dot: string)
    requires dot == "" || dot == "."
    ensures Normal([dot]) == []
  {
    assert [dot][1..] == [];
  }

  /** A parent component anywhere and a slash in front are refused; a name without any plain component is corrupt. */
  lemma Refused(dest: Path, parts: seq<string>)
    requires AreComponents(parts)
    ensures ".." in parts || (parts[0] == "" && |parts| > 1) ==> SafeJoin(dest, Slashed(parts)) == Err(PathTraversal)
    ensures (forall i :: 0 <= i < |parts| ==> parts[i] == "." || (parts[i] == "" && (i > 0 || |parts| == 1))) ==>
      SafeJoin(dest, Slashed(parts)) == Err(CorruptedFile)
  {
    SplitSlashed(parts);
    if parts[0] == "" && |parts| > 1 {
      assert Slashed(parts) == "" + "/" + Slashed(parts[1..]);
      assert Slashed(parts)[0] == '/';
    }
    if forall i :: 0 <= i < |parts| ==> parts[i] == "." || (parts[i] == "" && (i > 0 || |parts| == 1)) {
      AllDots(parts);
      if parts[0] != "" {
        StartsPlain(parts);
      }
    }
  }

  lemma {:induction false} AllDots(parts: seq<string>)
    requires forall i :: 0 <= i < |parts| ==> parts[i] == "." || parts[i] == ""
    ensures Normal(parts) == []
  {
    if parts != [] {
      AllDots(parts[1..]);
    }
  }
}
