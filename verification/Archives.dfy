/** Archiving a log file under a timestamp: shared/include/Poco/ArchiveStrategy.h. */
module Archives {

  /** The log file, its name with the timestamp appended, that name with a number, and all other files. */
  datatype Name = Log | Stamped | Numbered(n: nat) | Other(id: nat)

  type Content = seq<char>

  type Files = map<Name, Content>

  // ----- the shift on values -------------------------------------------------------------------

  /** The first number that is free. */
  ghost predicate IsGap(files: Files, g: nat) {
    Numbered(g) !in files && forall k :: 0 <= k < g ==> Numbered(k) in files
  }

  /** The link of the chain in front of a number; the file without a number is in front of 0. */
  function Previous(n: nat): Name {
    if n == 0 then Stamped else Numbered(n - 1)
  }

  /** The link that is empty when all links behind n have been moved up. */
  function Hole(n: int): Name {
    if n < 0 then Stamped else Numbered(n)
  }

  /** Where the content under a name comes from when the links behind n, up to the gap, have been moved. */
  function Origin(name: Name, g: nat, n: int): Name {
    if name.Numbered? && n < name.n <= g then Previous(name.n) else name
  }

  ghost predicate MovedAt(before: Files, now: Files, g: nat, n: int, name: Name) {
    if name == Hole(n) then name !in now
    else (name in now <==> Origin(name, g, n) in before) &&
         (name in now ==> now[name] == before[Origin(name, g, n)])
  }

  ghost predicate Moved(before: Files, now: Files, g: nat, n: int) {
    forall name :: MovedAt(before, now, g, n, name)
  }

  /** Where a file ends up. */
  function Destination(name: Name, g: nat): Name {
    match name
    case Stamped => Numbered(0)
    case Numbered(k) => if k < g then Numbered(k + 1) else name
    case _ => name
  }

  ghost predicate ComesFrom(before: Files, name: Name, g: nat) {
    exists a :: a in before && Destination(a, g) == name
  }

  /** The complete shift: every file is found under its new name with its content, no two files meet under
      one name, nothing else exists, and the name without a number is free. */
  ghost predicate Shifted(before: Files, after: Files, g: nat) {
    (forall name :: name in before ==>
      Destination(name, g) in after && after[Destination(name, g)] == before[name]) &&
    (forall a, b :: a in before && b in before && a != b ==> Destination(a, g) != Destination(b, g)) &&
    (forall name :: name in after ==> ComesFrom(before, name, g)) &&
    Stamped !in after
  }

  lemma DestinationOfOrigin(name: Name, g: nat)
    requires name != Stamped
    ensures Destination(Origin(name, g, -1), g) == name
  {
  }

  lemma OriginOfDestination(name: Name, g: nat)
    requires name != Numbered(g)
    ensures Origin(Destination(name, g), g, -1) == name && Destination(name, g) != Stamped
  {
  }

  lemma MovedIsShifted(before: Files, after: Files, g: nat)
    requires IsGap(before, g) && Stamped in before && Moved(before, after, g, -1)
    ensures Shifted(before, after, g)
  {
    hide Destination, Origin;
    assert MovedAt(before, after, g, -1, Stamped);
    forall name | name in before
      ensures Destination(name, g) in after && after[Destination(name, g)] == before[name]
    {
      OriginOfDestination(name, g);
      assert MovedAt(before, after, g, -1, Destination(name, g));
    }
    forall a, b | a in before && b in before && a != b
      ensures Destination(a, g) != Destination(b, g)
    {
      OriginOfDestination(a, g);
      OriginOfDestination(b, g);
    }
    forall name | name in after
      ensures ComesFrom(before, name, g)
    {
      assert MovedAt(before, after, g, -1, Stamped) && MovedAt(before, after, g, -1, name);
      DestinationOfOrigin(name, g);
      assert Origin(name, g, -1) in before;
    }
  }

  /** A chain of two with its newest file: each moves up by one, and the other files stay. */
  lemma ChainOfTwo(a: Content, b: Content, c: Content, log: Content, after: Files)
    requires Shifted(map[Log := log, Stamped := a, Numbered(0) := b, Numbered(1) := c], after, 2)
    ensures after == map[Log := log, Numbered(0) := a, Numbered(1) := b, Numbered(2) := c]
  {
    var before := map[Log := log, Stamped := a, Numbered(0) := b, Numbered(1) := c];
    assert Log in before && Stamped in before && Numbered(0) in before && Numbered(1) in before;
    forall name
      ensures name in after <==> name in {Log, Numbered(0), Numbered(1), Numbered(2)}
    {
      if name in after {
        assert ComesFrom(before, name, 2);
      }
    }
  }

  lemma MoveOne(before: Files, now: Files, g: nat, n: nat)
    requires IsGap(before, g) && Stamped in before && n <= g && Moved(before, now, g, n)
    ensures Previous(n) in now
    ensures Moved(before, Rename(now, Previous(n), Hole(n)), g, n - 1)
  {
    assert MovedAt(before, now, g, n, Previous(n));
    assert Origin(Previous(n), g, n) == Previous(n);
    assert Previous(n) in before;
    assert Previous(n) == Hole(n - 1);
    var next, m: int := Rename(now, Previous(n), Hole(n)), n - 1;
    forall name
      ensures MovedAt(before, next, g, m, name)
    {
      assert MovedAt(before, now, g, n, name);
      assert name != Hole(n) ==> Origin(name, g, n - 1) == Origin(name, g, n);
    }
  }

  function Rename(files: Files, oldName: Name, newName: Name): Files
    requires oldName in files
  {
    (files - {oldName})[newName := files[oldName]]
  }

  // ----- the file system and the strategy ------------------------------------------------------

  function NumbersFrom(files: Files, n: nat): set<Name> {
    set name | name in files && name.Numbered? && name.n >= n
  }

  class ArchiveByTimestamp {
    var files: Files

    constructor (files: Files)
      ensures this.files == files
    {
      this.files := files;
    }

    method Exists(name: Name) returns (b: bool)
      ensures b == (name in files)
    {
      b := name in files;
    }

    method MoveFile(oldName: Name, newName: Name)
      requires oldName in files
      modifies this
      ensures files == Rename(old(files), oldName, newName)
    {
      files := Rename(files, oldName, newName);
    }

    /** Looks for the first free number and then moves the chain up from its end. */
    method ArchiveByNumber() returns (ghost gap: nat)
      requires Stamped in files
      modifies this
      ensures IsGap(old(files), gap) && Shifted(old(files), files, gap)
    {
      hide Moved, Shifted, Origin;
      var n := 0;
      var taken := Exists(Numbered(0));
      while taken
        invariant files == old(files) && taken == (Numbered(n) in files)
        invariant forall k :: 0 <= k < n ==> Numbered(k) in files
        decreases |NumbersFrom(files, n)|, taken
      {
        assert NumbersFrom(files, n) == {Numbered(n)} + NumbersFrom(files, n + 1);
        n := n + 1;
        taken := Exists(Numbered(n));
      }
      gap := n;
      NothingMoved(files, gap);
      var i: int := n;
      while i >= 0
        invariant -1 <= i <= gap
        invariant Moved(old(files), files, gap, i)
      {
        MoveOne(old(files), files, gap, i);
        MoveFile(Previous(i), Numbered(i));
        i := i - 1;
      }
      MovedIsShifted(old(files), files, gap);
    }

    /** archive(): the log file gets the stamped name only when that name is free. When it is taken, the
        file that has it is numbered and the log file stays where it is and is opened again. */
    method Archive() returns (ghost gap: nat)
      requires Log in files
      modifies this
      ensures Stamped !in old(files) ==>
        files == Rename(old(files), Log, Stamped)[Log := []] && files[Stamped] == old(files)[Log]
      ensures Stamped in old(files) ==>
        IsGap(old(files), gap) && Shifted(old(files), files, gap) && Log in files && files[Log] == old(files)[Log]
    {
      gap := 0;
      var stamped := Exists(Stamped);
      if stamped {
        gap := ArchiveByNumber();
        assert Destination(Log, gap) == Log;
      } else {
        MoveFile(Log, Stamped);
      }
      OpenLog();
    }

    /** new LogFile(path): creates the file if there is none. */
    method OpenLog()
      modifies this
      ensures files == if Log in old(files) then old(files) else old(files)[Log := []]
    {
      if Log !in files {
        files := files[Log := []];
      }
    }
  }

  lemma NothingMoved(files: Files, g: nat)
    requires IsGap(files, g)
    ensures Moved(files, files, g, g)
  {
  }

  /** The log is found under the stamped name after archiving exactly when that name was free before. */
  lemma LogIsArchivedIff(before: Files, after: Files, g: nat)
    requires Log in before
    requires if Stamped in before then Shifted(before, after, g)
             else after == Rename(before, Log, Stamped)[Log := []]
    ensures (Stamped in after && after[Stamped] == before[Log]) <==> Stamped !in before
  {
  }

  /** Two archivings within the same timestamp: the second leaves the log as it is and its stamped name
      free. */
  method SecondArchiveLeavesLog(first: Content, second: Content) returns (files: Files)
    ensures files == map[Log := second, Numbered(0) := first]
  {
    hide Shifted;
    var strategy := new ArchiveByTimestamp(map[Log := second, Stamped := first]);
    var gap := strategy.Archive();
    assert gap == 0 by { assert Numbered(0) !in map[Log := second, Stamped := first]; }
    files := strategy.files;
    OnlyStampedMoves(first, second, files);
  }

  lemma OnlyStampedMoves(first: Content, second: Content, after: Files)
    requires Shifted(map[Log := second, Stamped := first], after, 0)
    ensures after == map[Log := second, Numbered(0) := first]
  {
    var before := map[Log := second, Stamped := first];
    assert Log in before && Stamped in before;
    assert Destination(Log, 0) in after && Destination(Stamped, 0) in after;
    forall name | name in after
      ensures name == Log || name == Numbered(0)
    {
      assert ComesFrom(before, name, 0);
    }
  }
}
