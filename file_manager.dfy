/**
 * The pure helpers of the file manager: the parent of the current path, the
 * two tests on command arguments (an extension, an absolute Windows path),
 * the order in which a listing shows its entries and the human-readable
 * size of a file.  The current path and the directory test, which the
 * source reads from the class and the file system, are parameters here.
 */
module FileManager {

  datatype Option<T> = None | Some(value: T)

  // ---------------------------------------------------------------------
  // `str.split` and `str.join` on a one-character separator

  /** The position of the first `sep` in `s`. */
  function FirstIndex(s: string, sep: char): (i: nat)
    requires sep in s
    ensures i < |s| && s[i] == sep && sep !in s[..i]
  {
    if s[0] == sep then 0
    else
      var j := FirstIndex(s[1..], sep);
      assert s[..j + 1] == [s[0]] + s[1..][..j];
      j + 1
  }

  /** `s.split(sep)`: the pieces between successive separators, so one
      more piece than there are separators. */
  function Split(s: string, sep: char): (parts: seq<string>)
    ensures |parts| >= 1
    ensures forall k :: 0 <= k < |parts| ==> sep !in parts[k]
    decreases |s|
  {
    if sep !in s then [s]
    else
      var i := FirstIndex(s, sep);
      [s[..i]] + Split(s[i + 1..], sep)
  }

  /** `sep.join(parts)`. */
  function Join(parts: seq<string>, sep: char): (r: string)
    ensures |parts| > 0 ==> parts[0] <= r
    ensures |parts| > 1 ==> |parts[0]| < |r| && r[|parts[0]|] == sep
  {
    if |parts| == 0 then ""
    else if |parts| == 1 then parts[0]
    else parts[0] + [sep] + Join(parts[1..], sep)
  }

  /** Joining the pieces of a split gives back the text. */
  lemma {:induction false} JoinSplit(s: string, sep: char)
    ensures Join(Split(s, sep), sep) == s
    decreases |s|
  {
    if sep in s {
      var i := FirstIndex(s, sep);
      var rest := s[i + 1..];
      JoinSplit(rest, sep);
      assert Split(s, sep) == [s[..i]] + Split(rest, sep);
      assert s == s[..i] + [sep] + rest;
    }
  }

  /** A separator-free head followed by a separator splits off first. */
  lemma SplitAtFirst(head: string, sep: char, rest: string)
    requires sep !in head
    ensures Split(head + [sep] + rest, sep) == [head] + Split(rest, sep)
  {
    var s := head + [sep] + rest;
    var i := FirstIndex(s, sep);
    assert s[|head|] == sep;
    if i < |head| {
      assert false;
    } else if i > |head| {
      assert false;
    }
    assert s[..i] == head;
    assert s[i + 1..] == rest;
  }

  /** Splitting a join of separator-free pieces gives back the pieces. */
  lemma {:induction false} SplitJoin(parts: seq<string>, sep: char)
    requires |parts| >= 1
    requires forall k :: 0 <= k < |parts| ==> sep !in parts[k]
    ensures Split(Join(parts, sep), sep) == parts
  {
    if |parts| > 1 {
      SplitJoin(parts[1..], sep);
      SplitAtFirst(parts[0], sep, Join(parts[1..], sep));
      assert parts == [parts[0]] + parts[1..];
    }
  }

  // ---------------------------------------------------------------------
  // `__get_parent`

  /** The current path without its last `/`-separated component. */
  function GetParent(current: string): string {
    var path := Split(current, '/');
    Join(path[..|path| - 1], '/')
  }

  lemma JoinCons(head: string, tail: seq<string>, sep: char)
    requires |tail| >= 1
    ensures Join([head] + tail, sep) == head + [sep] + Join(tail, sep)
  {
    assert ([head] + tail)[1..] == tail;
  }

  /** `n` is the position of the last `/` of `path`. */
  predicate LastSlashAt(path: string, n: nat) {
    n < |path| && path[n] == '/' && '/' !in path[n + 1..]
  }

  /** A last `/` of `rest` is the last `/` of anything ending in `/` and
      `rest`. */
  lemma LastSlashShift(head: string, rest: string, n: nat)
    requires LastSlashAt(rest, n)
    ensures LastSlashAt(head + ['/'] + rest, |head| + 1 + n)
    ensures (head + ['/'] + rest)[..|head| + 1 + n] == head + ['/'] + rest[..n]
  {
    var c, m := head + ['/'] + rest, |head| + 1 + n;
    assert c[m] == rest[n];
    assert c[m + 1..] == rest[n + 1..];
  }

  /** The parent is the text before the last `/`, or `""` when there is
      none. */
  lemma {:induction false} GetParentIsBeforeLastSlash(current: string)
    ensures '/' !in current ==> GetParent(current) == ""
    ensures '/' in current ==>
              var p := GetParent(current);
              LastSlashAt(current, |p|) && current[..|p|] == p
    decreases |current|
  {
    if '/' in current {
      var i := FirstIndex(current, '/');
      var head, rest := current[..i], current[i + 1..];
      assert current == head + ['/'] + rest;
      if '/' !in rest {
        GetParentCons(head, rest);
      } else {
        GetParentIsBeforeLastSlash(rest);
        GetParentCons(head, rest);
        LastSlashShift(head, rest, |GetParent(rest)|);
      }
    }
  }

  /** Taking off the first component before taking the parent. */
  lemma GetParentCons(head: string, rest: string)
    requires '/' !in head
    ensures '/' !in rest ==> GetParent(head + ['/'] + rest) == head
    ensures '/' in rest ==> GetParent(head + ['/'] + rest) == head + ['/'] + GetParent(rest)
  {
    SplitAtFirst(head, '/', rest);
    var tail := Split(rest, '/');
    var path := Split(head + ['/'] + rest, '/');
    assert path[..|path| - 1] == [head] + tail[..|tail| - 1];
    if '/' in rest {
      var j := FirstIndex(rest, '/');
      assert rest == rest[..j] + ['/'] + rest[j + 1..];
      SplitAtFirst(rest[..j], '/', rest[j + 1..]);
      assert |tail| >= 2;
      JoinCons(head, tail[..|tail| - 1], '/');
    }
  }

  // ---------------------------------------------------------------------
  // `__is_extension` and `__is_absolute`

  /** An argument naming an extension starts with a dot. */
  predicate IsExtension(value: string) {
    |value| > 0 && value[0] == '.'
  }

  /** An extension is exactly a text whose first `.`-separated piece is
      empty. */
  lemma ExtensionHasEmptyStem(value: string)
    ensures IsExtension(value) <==> '.' in value && Split(value, '.')[0] == ""
  {
    if '.' in value {
      var i := FirstIndex(value, '.');
      assert Split(value, '.')[0] == value[..i];
      assert i == 0 <==> value[0] == '.';
    }
  }

  predicate IsAsciiLetter(c: char) {
    'a' <= c <= 'z' || 'A' <= c <= 'Z'
  }

  /** An absolute path starts with a drive: a letter, `:` and `\`. */
  predicate IsAbsolute(path: string) {
    |path| >= 3 && IsAsciiLetter(path[0]) && path[1] == ':' && path[2] == '\\'
  }

  /** Only the first three characters decide: anything may follow a drive,
      and an extension is never absolute. */
  lemma AbsoluteIsAPrefixTest(path: string, more: string)
    ensures IsAbsolute(path) <==> |path| >= 3 && IsAbsolute(path[..3])
    ensures IsAbsolute(path) ==> IsAbsolute(path + more)
    ensures IsAbsolute(path) ==> !IsExtension(path)
  {
    if |path| >= 3 {
      assert path[..3][0] == path[0] && path[..3][1] == path[1] && path[..3][2] == path[2];
    }
  }

  // ---------------------------------------------------------------------
  // Python's order on strings

  /** `a <= b` for strings: character by character, a proper prefix
      first. */
  predicate LessEq(a: string, b: string)
    ensures a <= b ==> LessEq(a, b)
  {
    |a| == 0 || (|b| > 0 && (a[0] < b[0] || (a[0] == b[0] && LessEq(a[1..], b[1..]))))
  }

  lemma {:induction false} LessEqTotal(a: string, b: string)
    ensures LessEq(a, b) || LessEq(b, a)
  {
    if |a| > 0 && |b| > 0 && a[0] == b[0] {
      LessEqTotal(a[1..], b[1..]);
    }
  }

  lemma {:induction false} LessEqAntisymmetric(a: string, b: string)
    requires LessEq(a, b) && LessEq(b, a)
    ensures a == b
  {
    if |a| > 0 && |b| > 0 {
      LessEqAntisymmetric(a[1..], b[1..]);
      assert a == [a[0]] + a[1..] && b == [b[0]] + b[1..];
    }
  }

  lemma {:induction false} LessEqTransitive(a: string, b: string, c: string)
    requires LessEq(a, b) && LessEq(b, c)
    ensures LessEq(a, c)
  {
    if |a| > 0 && a[0] == b[0] && b[0] == c[0] {
      LessEqTransitive(a[1..], b[1..], c[1..]);
    }
  }

  // ---------------------------------------------------------------------
  // `sorted(...)` of the directories: ascending

  predicate Ascending(s: seq<string>) {
    forall i, j :: 0 <= i < j < |s| ==> LessEq(s[i], s[j])
  }

  function InsertAscending(x: string, s: seq<string>): (r: seq<string>)
    ensures multiset(r) == multiset(s) + multiset{x}
  {
    if |s| == 0 then [x]
    else if LessEq(x, s[0]) then [x] + s
    else assert s == [s[0]] + s[1..]; [s[0]] + InsertAscending(x, s[1..])
  }

  /** The insertion sort standing for `sorted`. */
  function SortAscending(s: seq<string>): (r: seq<string>)
    ensures multiset(r) == multiset(s)
  {
    if |s| == 0 then [] else assert s == [s[0]] + s[1..]; InsertAscending(s[0], SortAscending(s[1..]))
  }

  lemma {:induction false} InsertAscendingSorts(x: string, s: seq<string>)
    requires Ascending(s)
    ensures multiset(InsertAscending(x, s)) == multiset(s) + multiset{x}
    ensures Ascending(InsertAscending(x, s))
  {
    if |s| > 0 {
      if LessEq(x, s[0]) {
        forall j | 0 < j < |s| ensures LessEq(x, s[j]) {
          LessEqTransitive(x, s[0], s[j]);
        }
      } else {
        LessEqTotal(x, s[0]);
        InsertAscendingSorts(x, s[1..]);
        var t := InsertAscending(x, s[1..]);
        assert s == [s[0]] + s[1..];
        forall j | 0 <= j < |t| ensures LessEq(s[0], t[j]) {
          assert t[j] in multiset(s[1..]) + multiset{x};
        }
      }
    }
  }

  /** `sorted` returns an ascending rearrangement of its argument. */
  lemma {:induction false} SortAscendingSorts(s: seq<string>)
    ensures multiset(SortAscending(s)) == multiset(s)
    ensures Ascending(SortAscending(s))
  {
    if |s| > 0 {
      SortAscendingSorts(s[1..]);
      InsertAscendingSorts(s[0], SortAscending(s[1..]));
      assert s == [s[0]] + s[1..];
    }
  }

  lemma {:induction false} LessEqReflexive(a: string)
    ensures LessEq(a, a)
  {
    if |a| > 0 {
      LessEqReflexive(a[1..]);
    }
  }

  // ---------------------------------------------------------------------
  // `sorted(..., key=lambda item: item.split(".")[1], reverse=True)` of
  // the other entries

  /** The first piece of a split is the text up to the first separator. */
  lemma SplitHead(s: string, sep: char)
    ensures var h := Split(s, sep)[0];
            |h| <= |s| && s[..|h|] == h && (|h| == |s| || s[|h|] == sep)
  {
  }

  /** `item.split(".")[1]`. */
  function Key(item: string): string
    requires '.' in item
  {
    Split(item, '.')[1]
  }

  /** The key is the text between the first dot and the next one, or the
      end. */
  lemma KeyIsBetweenDots(item: string)
    requires '.' in item
    ensures var i, key := FirstIndex(item, '.'), Key(item);
            i + 1 + |key| <= |item| && item[i + 1..i + 1 + |key|] == key && '.' !in key &&
            (i + 1 + |key| == |item| || item[i + 1 + |key|] == '.')
  {
    var i := FirstIndex(item, '.');
    SplitHead(item[i + 1..], '.');
  }

  /** Every entry has a dot, so that its key exists. */
  predicate Dotted(s: seq<string>) {
    forall k :: 0 <= k < |s| ==> '.' in s[k]
  }

  predicate DescendingByKey(s: seq<string>)
    requires Dotted(s)
  {
    forall i, j :: 0 <= i < j < |s| ==> LessEq(Key(s[j]), Key(s[i]))
  }

  /** `x` goes before the first entry whose key is not above its own, so
      that it stays ahead of the entries with an equal key. */
  function InsertByKey(x: string, s: seq<string>): (r: seq<string>)
    requires '.' in x && Dotted(s)
    ensures multiset(r) == multiset(s) + multiset{x} && Dotted(r)
  {
    if |s| == 0 then [x]
    else if LessEq(Key(s[0]), Key(x)) then [x] + s
    else
      assert s == [s[0]] + s[1..];
      [s[0]] + InsertByKey(x, s[1..])
  }

  /** The stable insertion sort standing for `sorted(..., reverse=True)`. */
  function SortByKey(s: seq<string>): (r: seq<string>)
    requires Dotted(s)
    ensures multiset(r) == multiset(s) && Dotted(r)
  {
    if |s| == 0 then []
    else
      assert s == [s[0]] + s[1..];
      InsertByKey(s[0], SortByKey(s[1..]))
  }

  lemma {:induction false} InsertByKeySorts(x: string, s: seq<string>)
    requires '.' in x && Dotted(s) && DescendingByKey(s)
    ensures DescendingByKey(InsertByKey(x, s))
  {
    if |s| > 0 {
      if LessEq(Key(s[0]), Key(x)) {
        forall j | 0 < j < |s| ensures LessEq(Key(s[j]), Key(x)) {
          LessEqTransitive(Key(s[j]), Key(s[0]), Key(x));
        }
      } else {
        LessEqTotal(Key(x), Key(s[0]));
        InsertByKeySorts(x, s[1..]);
        var t := InsertByKey(x, s[1..]);
        assert s == [s[0]] + s[1..];
        forall j | 0 <= j < |t| ensures LessEq(Key(t[j]), Key(s[0])) {
          assert t[j] in multiset(s[1..]) + multiset{x};
        }
      }
    }
  }

  /** `sorted(..., reverse=True)` puts the keys in descending order. */
  lemma {:induction false} SortByKeySorts(s: seq<string>)
    requires Dotted(s)
    ensures DescendingByKey(SortByKey(s))
  {
    if |s| > 0 {
      SortByKeySorts(s[1..]);
      InsertByKeySorts(s[0], SortByKey(s[1..]));
    }
  }

  /** The entries whose key is `key`, in order. */
  function WithKey(s: seq<string>, key: string): seq<string>
    requires Dotted(s)
  {
    if |s| == 0 then []
    else (if Key(s[0]) == key then [s[0]] else []) + WithKey(s[1..], key)
  }

  lemma WithKeyCons(y: string, t: seq<string>, key: string)
    requires '.' in y && Dotted(t)
    ensures WithKey([y] + t, key) == (if Key(y) == key then [y] else []) + WithKey(t, key)
  {
    assert ([y] + t)[1..] == t;
  }

  lemma {:induction false} InsertByKeyStable(x: string, s: seq<string>, key: string)
    requires '.' in x && Dotted(s)
    ensures WithKey(InsertByKey(x, s), key) ==
              (if Key(x) == key then [x] else []) + WithKey(s, key)
  {
    if |s| > 0 {
      if LessEq(Key(s[0]), Key(x)) {
        assert InsertByKey(x, s) == [x] + s;
        WithKeyCons(x, s, key);
      } else {
        InsertByKeyStable(x, s[1..], key);
        InsertByKeyStableStep(x, s, key);
      }
    }
  }

  /** Inserting past the first entry, whose key is above that of `x`. */
  lemma InsertByKeyStableStep(x: string, s: seq<string>, key: string)
    requires '.' in x && Dotted(s) && |s| > 0 && !LessEq(Key(s[0]), Key(x))
    requires WithKey(InsertByKey(x, s[1..]), key) ==
               (if Key(x) == key then [x] else []) + WithKey(s[1..], key)
    ensures WithKey(InsertByKey(x, s), key) ==
              (if Key(x) == key then [x] else []) + WithKey(s, key)
  {
    var t, w := InsertByKey(x, s[1..]), WithKey(s[1..], key);
    var a := if Key(s[0]) == key then [s[0]] else [];
    var b := if Key(x) == key then [x] else [];
    assert InsertByKey(x, s) == [s[0]] + t;
    WithKeyCons(s[0], t, key);
    assert WithKey(s, key) == a + w;
    LessEqReflexive(Key(x));
    assert a == [] || b == [];
    SwapAroundEmpty(a, b, w);
  }

  /** Two pieces of which one is empty can be put in either order. */
  lemma SwapAroundEmpty(a: seq<string>, b: seq<string>, w: seq<string>)
    requires a == [] || b == []
    ensures a + (b + w) == b + (a + w)
  {
    if a == [] {
      assert [] + (b + w) == b + w;
    } else {
      assert [] + (a + w) == a + w;
    }
  }

  /** Entries with equal keys keep their order: the sort is stable. */
  lemma {:induction false} SortByKeyStable(s: seq<string>, key: string)
    requires Dotted(s)
    ensures WithKey(SortByKey(s), key) == WithKey(s, key)
  {
    if |s| > 0 {
      SortByKeyStable(s[1..], key);
      InsertByKeyStable(s[0], SortByKey(s[1..]), key);
    }
  }

  // ---------------------------------------------------------------------
  // `__sort_dir`

  /** `[item for item in files if isdir(item)]`. */
  function Directories(files: seq<string>, isDir: string -> bool): (r: seq<string>)
    ensures forall x :: x in r <==> x in files && isDir(x)
  {
    if |files| == 0 then []
    else (if isDir(files[0]) then [files[0]] else []) + Directories(files[1..], isDir)
  }

  /** `[item for item in files if item not in directory]`. */
  function NotIn(files: seq<string>, directory: seq<string>): (r: seq<string>)
    ensures forall x :: x in r <==> x in files && x !in directory
  {
    if |files| == 0 then []
    else (if files[0] !in directory then [files[0]] else []) + NotIn(files[1..], directory)
  }

  /** The entries that are not directories, in their listing order. */
  function Others(files: seq<string>, isDir: string -> bool): seq<string> {
    if |files| == 0 then []
    else (if !isDir(files[0]) then [files[0]] else []) + Others(files[1..], isDir)
  }

  /** Directories first, ascending; then the other entries by descending
      key.  `None` when one of those entries has no dot, on which
      `item.split(".")[1]` raises an error. */
  function SortDir(files: seq<string>, isDir: string -> bool): Option<seq<string>> {
    var directory := SortAscending(Directories(files, isDir));
    var file := NotIn(files, directory);
    if Dotted(file) then Some(directory + SortByKey(file)) else None
  }

  /** Leaving out the sorted directories leaves the other entries. */
  lemma {:induction false} NotInDirectoriesIsOthers(files: seq<string>, directory: seq<string>, isDir: string -> bool)
    requires forall x :: x in files ==> (x in directory <==> isDir(x))
    ensures NotIn(files, directory) == Others(files, isDir)
  {
    if |files| > 0 {
      NotInDirectoriesIsOthers(files[1..], directory, isDir);
    }
  }

  lemma {:induction false} PartitionByIsDir(files: seq<string>, isDir: string -> bool)
    ensures multiset(Directories(files, isDir)) + multiset(Others(files, isDir)) == multiset(files)
    ensures forall x :: x in Others(files, isDir) <==> x in files && !isDir(x)
  {
    if |files| > 0 {
      PartitionByIsDir(files[1..], isDir);
      assert files == [files[0]] + files[1..];
    }
  }

  lemma SortedDirectoriesAreDirectories(files: seq<string>, isDir: string -> bool)
    ensures var directory := SortAscending(Directories(files, isDir));
            NotIn(files, directory) == Others(files, isDir)
  {
    var d := Directories(files, isDir);
    SortAscendingSorts(d);
    forall x | x in files ensures x in SortAscending(d) <==> isDir(x) {
      assert x in SortAscending(d) <==> x in multiset(SortAscending(d));
    }
    NotInDirectoriesIsOthers(files, SortAscending(d), isDir);
  }

  /** The listing fails exactly when an entry that is not a directory has
      no dot. */
  lemma SortDirFails(files: seq<string>, isDir: string -> bool)
    ensures SortDir(files, isDir) == None <==> exists x :: x in files && !isDir(x) && '.' !in x
  {
    SortedDirectoriesAreDirectories(files, isDir);
    PartitionByIsDir(files, isDir);
    var o := Others(files, isDir);
    if !Dotted(o) {
      var k :| 0 <= k < |o| && '.' !in o[k];
      assert o[k] in files;
    }
  }

  /** A successful listing is a rearrangement of the entries: the
      directories, ascending, then the others by descending key, those with
      equal keys in listing order. */
  lemma SortDirOrders(files: seq<string>, isDir: string -> bool)
    requires SortDir(files, isDir) != None
    ensures var r, n := SortDir(files, isDir).value, |Directories(files, isDir)|;
            n <= |r| && multiset(r) == multiset(files) &&
            (forall i :: 0 <= i < n ==> isDir(r[i])) &&
            (forall i :: n <= i < |r| ==> !isDir(r[i])) &&
            Ascending(r[..n]) && Dotted(r[n..]) && DescendingByKey(r[n..]) &&
            Dotted(Others(files, isDir)) &&
            forall key :: WithKey(r[n..], key) == WithKey(Others(files, isDir), key)
  {
    var d := Directories(files, isDir);
    var o := Others(files, isDir);
    SortedDirectoriesAreDirectories(files, isDir);
    PartitionByIsDir(files, isDir);
    SortAscendingSorts(d);
    SortByKeySorts(o);
    forall key ensures WithKey(SortByKey(o), key) == WithKey(o, key) {
      SortByKeyStable(o, key);
    }
    var r := SortAscending(d) + SortByKey(o);
    assert r[..|d|] == SortAscending(d) && r[|d|..] == SortByKey(o);
    forall i | 0 <= i < |d| ensures isDir(r[i]) {
      assert r[i] in multiset(SortAscending(d));
    }
    forall i | |d| <= i < |r| ensures !isDir(r[i]) {
      assert r[i] in multiset(SortByKey(o));
    }
  }

  // ---------------------------------------------------------------------
  // `__format_size`

  /** The units of the size table, in the order the table lists them. */
  datatype Unit = B | KB | MB | GB

  const Units: seq<Unit> := [B, KB, MB, GB]

  const Kilo: nat := 1024

  /** The first entry of a unit's row: what one of it is worth in bytes. */
  function RefMin(unit: Unit): nat {
    match unit
    case B => 1
    case KB => Kilo
    case MB => Kilo * Kilo
    case GB => Kilo * Kilo * Kilo
  }

  /** The second entry of a unit's row: the first size too big for it. */
  function RefMax(unit: Unit): nat {
    Kilo * RefMin(unit)
  }

  function UnitName(unit: Unit): string {
    match unit
    case B => "B"
    case KB => "KB"
    case MB => "MB"
    case GB => "GB"
  }

  /** A size as a whole number of some unit. */
  datatype Size = Size(amount: int, unit: Unit)

  /** The size shown for `value` bytes: in the first unit of the table
      whose bound `value` stays under, and in gigabytes past the table. */
  function SizeOf(value: int): Size {
    if value < RefMax(B) then Size(value / RefMin(B), B)
    else if value < RefMax(KB) then Size(value / RefMin(KB), KB)
    else if value < RefMax(MB) then Size(value / RefMin(MB), MB)
    else if value < RefMax(GB) then Size(value / RefMin(GB), GB)
    else Size(value / RefMin(GB), GB)
  }

  /** Below a kilobyte the size is shown in bytes, unchanged. */
  lemma SizeOfSmall(value: int)
    requires value < Kilo
    ensures SizeOf(value) == Size(value, B)
  {
  }

  /** The amount is the number of whole units in `value`, rounded down. */
  lemma SizeOfRoundsDown(value: int)
    ensures var s := SizeOf(value);
            RefMin(s.unit) * s.amount <= value < RefMin(s.unit) * (s.amount + 1)
  {
    var s := SizeOf(value);
    var m := RefMin(s.unit);
    assert value == m * (value / m) + value % m;
  }

  /** From a kilobyte on, the unit is the largest one not above `value`, so
      the amount is 1 to 1023 while the table lasts and 1024 or more
      past it. */
  lemma SizeOfPicksLargestUnit(value: int)
    requires value >= Kilo
    ensures var s := SizeOf(value);
            s.unit != B && RefMin(s.unit) <= value && (s.unit == GB || value < RefMax(s.unit)) &&
            1 <= s.amount && (value < RefMax(GB) <==> s.amount < Kilo)
  {
    var s := SizeOf(value);
    SizeOfRoundsDown(value);
    if value >= RefMax(GB) {
      assert RefMin(GB) * Kilo <= value;
    } else {
      assert RefMin(s.unit) * s.amount <= value < RefMin(s.unit) * Kilo;
    }
  }

  // Python's `str` of an integer: an optional `-`, then decimal digits.

  function DigitChar(d: nat): char
    requires d < 10
  {
    ('0' as int + d) as char
  }

  function Digits(n: nat): (r: string)
    ensures |r| >= 1 && forall k :: 0 <= k < |r| ==> '0' <= r[k] <= '9'
  {
    if n < 10 then [DigitChar(n)] else Digits(n / 10) + [DigitChar(n % 10)]
  }

  /** `str(i)`: an optional minus sign, then decimal digits. */
  function Decimal(i: int): (r: string)
    ensures |r| >= 1 && (r[0] == '-' <==> i < 0)
    ensures forall k :: (if i < 0 then 1 else 0) <= k < |r| ==> '0' <= r[k] <= '9'
  {
    if i < 0 then "-" + Digits(-i) else Digits(i)
  }

  /** `f"{amount}{unit}"`. */
  function Render(size: Size): string {
    Decimal(size.amount) + UnitName(size.unit)
  }

  /** `__format_size`: the loop walks the table in order and stops at the
      first unit whose bound `value` is under. */
  method FormatSize(value: int) returns (text: string)
    ensures text == Render(SizeOf(value))
  {
    var i := 0;
    while i < |Units|
      invariant 0 <= i <= |Units|
      invariant forall k :: 0 <= k < i ==> value >= RefMax(Units[k])
    {
      var unit := Units[i];
      if value < RefMax(unit) {
        if i >= 1 { assert value >= RefMax(Units[0]); }
        if i >= 2 { assert value >= RefMax(Units[1]); }
        if i >= 3 { assert value >= RefMax(Units[2]); }
        return Render(Size(value / RefMin(unit), unit));
      }
      i := i + 1;
    }
    assert value >= RefMax(Units[3]);
    return Render(Size(value / RefMin(GB), GB));
  }

  // Reading a rendered size back, to show that the text determines the
  // size.

  function ParseDigits(s: string): int {
    if |s| == 0 then 0 else ParseDigits(s[..|s| - 1]) * 10 + (s[|s| - 1] as int - '0' as int)
  }

  function ParseDecimal(s: string): int {
    if |s| > 0 && s[0] == '-' then -ParseDigits(s[1..]) else ParseDigits(s)
  }

  function ParseSize(text: string): Option<Size> {
    if |text| >= 2 && text[|text| - 2..] == "KB" then Some(Size(ParseDecimal(text[..|text| - 2]), KB))
    else if |text| >= 2 && text[|text| - 2..] == "MB" then Some(Size(ParseDecimal(text[..|text| - 2]), MB))
    else if |text| >= 2 && text[|text| - 2..] == "GB" then Some(Size(ParseDecimal(text[..|text| - 2]), GB))
    else if |text| >= 1 && text[|text| - 1] == 'B' then Some(Size(ParseDecimal(text[..|text| - 1]), B))
    else None
  }

  lemma {:induction false} ParseDigitsOfDigits(n: nat)
    ensures ParseDigits(Digits(n)) == n
  {
    if n >= 10 {
      ParseDigitsOfDigits(n / 10);
      var s := Digits(n);
      assert s[..|s| - 1] == Digits(n / 10);
      assert s[|s| - 1] as int - '0' as int == n % 10;
      assert (n / 10) * 10 + n % 10 == n;
    }
  }

  lemma ParseDecimalOfDecimal(i: int)
    ensures ParseDecimal(Decimal(i)) == i
  {
    if i < 0 {
      ParseDigitsOfDigits(-i);
      assert ("-" + Digits(-i))[1..] == Digits(-i);
    } else {
      ParseDigitsOfDigits(i);
    }
  }

  /** A number ending in a digit, followed by a unit name, parses as that
      number of that unit. */
  lemma ParseSizeSuffix(d: string, unit: Unit)
    requires |d| >= 1 && '0' <= d[|d| - 1] <= '9'
    ensures ParseSize(d + UnitName(unit)) == Some(Size(ParseDecimal(d), unit))
  {
    var text := d + UnitName(unit);
    var n := |text|;
    if unit == B {
      assert text[n - 2..] == [d[|d| - 1], 'B'];
      assert text[..n - 1] == d;
    } else {
      assert text[n - 2..] == UnitName(unit);
      assert text[..n - 2] == d;
    }
  }

  /** The shown text determines the size: parsing it back gives it. */
  lemma ParseSizeOfRender(size: Size)
    ensures ParseSize(Render(size)) == Some(size)
  {
    var d := Decimal(size.amount);
    ParseDecimalOfDecimal(size.amount);
    assert '0' <= d[|d| - 1] <= '9';
    ParseSizeSuffix(d, size.unit);
  }
}
