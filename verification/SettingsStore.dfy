/** src/SettingsFileDatabase.cxx: settings files saved under a name and a time, and loaded back. */
module SettingsStore {
  import opened CStrings
  import opened Json
  import opened MessageHandler
  import opened Replies
  import opened Base64

  // ---------- the framing of a settings bank ----------

  function WithoutSlashes(s: string): (r: string)
    ensures '/' !in r
    ensures '/' !in s ==> r == s
  {
    if s == "" then ""
    else if s[0] == '/' then WithoutSlashes(s[1..])
    else [s[0]] + WithoutSlashes(s[1..])
  }

  datatype Frame = Frame(project: string, file: string, bytes: seq<octet>)

  /** Project name, NUL, file name, NUL, file contents, NUL. */
  function ParseFrame(data: seq<octet>): Frame
  {
    var rest := BehindNul(data);
    var body := BehindNul(rest);
    Frame(WithoutSlashes(CStr(data)), WithoutSlashes(CStr(rest)), if body == [] then [] else body[..|body| - 1])
  }

  function Wire(project: seq<octet>, file: seq<octet>, bytes: seq<octet>): seq<octet>
  {
    project + [NUL] + (file + [NUL] + (bytes + [NUL]))
  }

  /** The parser takes back what a client frames; the contents may hold any byte, NUL included. */
  lemma FrameRoundTrip(project: seq<octet>, file: seq<octet>, bytes: seq<octet>)
    requires NUL !in project && NUL !in file
    ensures ParseFrame(Wire(project, file, bytes)) ==
            Frame(WithoutSlashes(project), WithoutSlashes(file), bytes)
  {
    var tail := bytes + [NUL];
    BehindTerminated(project, file + [NUL] + tail);
    BehindTerminated(file, tail);
    assert tail[..|tail| - 1] == bytes;
  }

  lemma BehindTerminated(s: seq<octet>, rest: seq<octet>)
    requires NUL !in s
    ensures CStr(s + [NUL] + rest) == s && BehindNul(s + [NUL] + rest) == rest
  {
    CStrOfTerminated(s, rest);
  }

  // ---------- names in the store ----------

  datatype Save = Save(project: string, file: string, bytes: seq<octet>, time: nat)

  function VersionName(file: string, time: nat): string
  {
    file + ("." + Decimal(time))
  }

  function ChecksumName(file: string): string
  {
    "md5." + file
  }

  /** Directory (project) and entry name to contents. */
  type Files = map<(string, string), seq<octet>>

  type Digest = seq<octet> -> seq<octet>

  /** The two writes of a save. */
  function Stored(files: Files, s: Save, md5: Digest): Files
  {
    files[(s.project, VersionName(s.file, s.time)) := s.bytes][(s.project, ChecksumName(s.file)) := md5(s.bytes)]
  }

  function StoreOf(saves: seq<Save>, md5: Digest): Files
  {
    if saves == [] then map[]
    else Stored(StoreOf(saves[..|saves| - 1], md5), saves[|saves| - 1], md5)
  }

  function Last(saves: seq<Save>, project: string, file: string): Option<Save>
  {
    if saves == [] then None
    else
      var s := saves[|saves| - 1];
      if s.project == project && s.file == file then Some(s)
      else Last(saves[..|saves| - 1], project, file)
  }

  // ---------- the directory listing ----------

  /** The order of the listing: character by character. */
  predicate Leq(a: string, b: string)
  {
    a == "" || (b != "" && (a[0] < b[0] || (a[0] == b[0] && Leq(a[1..], b[1..]))))
  }

  lemma {:induction false} LeqAntisymmetric(a: string, b: string)
    requires Leq(a, b) && Leq(b, a)
    ensures a == b
  {
    if a != "" && b != "" {
      LeqAntisymmetric(a[1..], b[1..]);
      assert a == [a[0]] + a[1..] && b == [b[0]] + b[1..];
    }
  }

  lemma {:induction false} LeqReflexive(a: string)
    ensures Leq(a, a)
  {
    if a != "" {
      LeqReflexive(a[1..]);
    }
  }

  lemma {:induction false} LeqCommonPrefix(p: string, a: string, b: string)
    ensures Leq(p + a, p + b) <==> Leq(a, b)
  {
    if p == "" {
      assert p + a == a && p + b == b;
    } else {
      assert (p + a)[1..] == p[1..] + a && (p + b)[1..] == p[1..] + b;
      LeqCommonPrefix(p[1..], a, b);
    }
  }

  lemma {:induction false} LeqEarlierDifference(a: string, b: string, x: string, y: string)
    requires |a| == |b| && a != b && Leq(a, b)
    ensures Leq(a + x, b + y)
  {
    assert (a + x)[1..] == a[1..] + x && (b + y)[1..] == b[1..] + y;
    if a[0] == b[0] {
      assert a == [a[0]] + a[1..] && b == [b[0]] + b[1..];
      LeqEarlierDifference(a[1..], b[1..], x, y);
    }
  }

  /** With equally many digits, the order of the text is the order of the numbers. */
  lemma {:induction false} DecimalOrder(a: nat, b: nat)
    requires |Decimal(a)| == |Decimal(b)| && a <= b
    ensures Leq(Decimal(a), Decimal(b))
  {
    if a >= 10 && b >= 10 {
      DecimalOrder(a / 10, b / 10);
      var x, y := [DecimalDigit(a % 10)], [DecimalDigit(b % 10)];
      if Decimal(a / 10) == Decimal(b / 10) {
        DecimalInjective(a / 10, b / 10);
        LeqCommonPrefix(Decimal(a / 10), x, y);
      } else {
        LeqEarlierDifference(Decimal(a / 10), Decimal(b / 10), x, y);
      }
    }
  }

  lemma {:induction false} DecimalInjective(a: nat, b: nat)
    requires Decimal(a) == Decimal(b)
    ensures a == b
  {
    var s := Decimal(a);
    if a >= 10 && b >= 10 {
      assert s[..|s| - 1] == Decimal(a / 10) == Decimal(b / 10);
      assert s[|s| - 1] == DecimalDigit(a % 10) == DecimalDigit(b % 10);
      DecimalInjective(a / 10, b / 10);
    }
  }

  /** The listing a load works on: the entries of the directory whose names begin with `file`, in order. */
  ghost predicate IsListing(files: Files, project: string, file: string, names: seq<string>)
  {
    && (forall n :: n in names <==> (project, n) in files && file <= n)
    && (forall i, j | 0 <= i < j < |names| :: Leq(names[i], names[j]))
  }

  /** No entry that begins with `file` sorts behind `name`. */
  ghost predicate NoneBehind(files: Files, project: string, file: string, name: string)
  {
    forall n :: (project, n) in files && file <= n ==> Leq(n, name)
  }

  /** A load chooses the last name of the listing; that is a given entry exactly when no other entry
      beginning with the file name sorts behind it. */
  lemma ChosenIff(files: Files, project: string, file: string, names: seq<string>, name: string)
    requires IsListing(files, project, file, names) && names != []
    requires (project, name) in files && file <= name
    ensures names[|names| - 1] == name <==> NoneBehind(files, project, file, name)
  {
    var last := names[|names| - 1];
    assert last in names && name in names;
    forall n | n in names ensures Leq(n, last) {
      var i :| 0 <= i < |names| && names[i] == n;
      if i == |names| - 1 {
        LeqReflexive(n);
      }
    }
    if NoneBehind(files, project, file, name) {
      LeqAntisymmetric(name, last);
    }
  }

  // ---------- histories ----------

  /** The times of the saves of one file never go back and never change their number of digits. */
  ghost predicate OrderlyTimes(saves: seq<Save>, project: string, file: string)
  {
    forall i, j | 0 <= i < j < |saves| && IsOf(saves[i], project, file) && IsOf(saves[j], project, file) ::
      saves[i].time <= saves[j].time && |Decimal(saves[i].time)| == |Decimal(saves[j].time)|
  }

  predicate IsOf(s: Save, project: string, file: string)
  {
    s.project == project && s.file == file
  }

  /** No save writes another entry that begins with the file name. */
  ghost predicate NameIsClear(saves: seq<Save>, project: string, file: string)
  {
    forall i | 0 <= i < |saves| && saves[i].project == project :: ClearOf(saves[i], file)
  }

  predicate ClearOf(s: Save, file: string)
  {
    !(file <= ChecksumName(s.file)) && (s.file != file ==> !(file <= VersionName(s.file, s.time)))
  }

  lemma {:induction false} LastIsOf(saves: seq<Save>, project: string, file: string) returns (i: nat)
    requires Last(saves, project, file).Some?
    ensures i < |saves| && saves[i] == Last(saves, project, file).value && IsOf(saves[i], project, file)
  {
    var n := |saves| - 1;
    if IsOf(saves[n], project, file) {
      i := n;
    } else {
      i := LastIsOf(saves[..n], project, file);
      assert saves[..n][i] == saves[i];
    }
  }

  lemma ClearPrefix(saves: seq<Save>, project: string, file: string)
    requires saves != [] && OrderlyTimes(saves, project, file) && NameIsClear(saves, project, file)
    ensures OrderlyTimes(saves[..|saves| - 1], project, file)
    ensures NameIsClear(saves[..|saves| - 1], project, file)
  {
    var init := saves[..|saves| - 1];
    assert forall i | 0 <= i < |init| :: init[i] == saves[i];
  }

  /** The newest version of a file is in the store, and no entry beginning with its name is behind it. */
  lemma {:induction false} NewestIsLast(saves: seq<Save>, project: string, file: string, md5: Digest)
    requires OrderlyTimes(saves, project, file) && NameIsClear(saves, project, file)
    ensures match Last(saves, project, file)
            case Some(s) =>
              var name := VersionName(file, s.time);
              var files := StoreOf(saves, md5);
              (project, name) in files && files[(project, name)] == s.bytes && NoneBehind(files, project, file, name)
            case None =>
              forall n :: (project, n) in StoreOf(saves, md5) ==> !(file <= n)
  {
    if saves != [] {
      var n := |saves| - 1;
      var init, s := saves[..n], saves[n];
      ClearPrefix(saves, project, file);
      NewestIsLast(init, project, file, md5);
      assert s.project == project ==> ClearOf(s, file);
      if IsOf(s, project, file) {
        if Last(init, project, file).Some? {
          var i := LastIsOf(init, project, file);
          assert init[i] == saves[i];
          OlderVersionSortsBefore(file, saves[i].time, s.time);
          NoneBehindTransfer(StoreOf(init, md5), project, file, saves[i].time, s.time);
        }
        LeqReflexive(VersionName(file, s.time));
      }
    }
  }

  lemma OlderVersionSortsBefore(file: string, a: nat, b: nat)
    requires a <= b && |Decimal(a)| == |Decimal(b)|
    ensures Leq(VersionName(file, a), VersionName(file, b))
  {
    DecimalOrder(a, b);
    LeqCommonPrefix(".", Decimal(a), Decimal(b));
    LeqCommonPrefix(file, "." + Decimal(a), "." + Decimal(b));
  }

  lemma NoneBehindTransfer(files: Files, project: string, file: string, a: nat, b: nat)
    requires NoneBehind(files, project, file, VersionName(file, a))
    requires Leq(VersionName(file, a), VersionName(file, b))
    ensures NoneBehind(files, project, file, VersionName(file, b))
  {
    forall n | (project, n) in files && file <= n ensures Leq(n, VersionName(file, b)) {
      LeqTransitive(n, VersionName(file, a), VersionName(file, b));
    }
  }

  lemma {:induction false} LeqTransitive(a: string, b: string, c: string)
    requires Leq(a, b) && Leq(b, c)
    ensures Leq(a, c)
  {
    if a != "" && a[0] == b[0] == c[0] {
      LeqTransitive(a[1..], b[1..], c[1..]);
    }
  }

  // ---------- when a load returns the last save ----------

  /** The save writes an entry of that name: a version, or a checksum. */
  predicate Writes(s: Save, project: string, name: string)
  {
    s.project == project && (VersionName(s.file, s.time) == name || ChecksumName(s.file) == name)
  }

  lemma {:induction false} StoredNames(saves: seq<Save>, project: string, name: string, md5: Digest)
    ensures (project, name) in StoreOf(saves, md5) <==> exists i :: 0 <= i < |saves| && Writes(saves[i], project, name)
  {
    hide VersionName, ChecksumName;
    if saves != [] {
      var n := |saves| - 1;
      StoredNames(saves[..n], project, name, md5);
      if i :| 0 <= i < n && Writes(saves[i], project, name) {
        assert saves[..n][i] == saves[i];
      }
    }
  }

  /** No entry this save writes begins with the file name and sorts behind the version. */
  predicate SortsBefore(s: Save, file: string, name: string)
  {
    && (file <= VersionName(s.file, s.time) ==> Leq(VersionName(s.file, s.time), name))
    && (file <= ChecksumName(s.file) ==> Leq(ChecksumName(s.file), name))
  }

  ghost predicate AllSortBefore(saves: seq<Save>, project: string, file: string, name: string)
  {
    forall i | 0 <= i < |saves| && saves[i].project == project :: SortsBefore(saves[i], file, name)
  }

  lemma NoneBehindIff(saves: seq<Save>, project: string, file: string, name: string, md5: Digest)
    ensures NoneBehind(StoreOf(saves, md5), project, file, name) <==> AllSortBefore(saves, project, file, name)
  {
    hide VersionName, ChecksumName, Leq, StoreOf;
    if AllSortBefore(saves, project, file, name) {
      forall n | (project, n) in StoreOf(saves, md5) && file <= n ensures Leq(n, name) {
        StoredNames(saves, project, n, md5);
        var i :| 0 <= i < |saves| && Writes(saves[i], project, n);
        assert SortsBefore(saves[i], file, name);
      }
    }
    if NoneBehind(StoreOf(saves, md5), project, file, name) {
      forall i | 0 <= i < |saves| && saves[i].project == project ensures SortsBefore(saves[i], file, name) {
        StoredNames(saves, project, VersionName(saves[i].file, saves[i].time), md5);
        StoredNames(saves, project, ChecksumName(saves[i].file), md5);
        assert Writes(saves[i], project, VersionName(saves[i].file, saves[i].time));
        assert Writes(saves[i], project, ChecksumName(saves[i].file));
      }
    }
  }

  /** Over every history the version of the last save is chosen exactly when nothing that a save of the
      project has written under the beginning of that name sorts behind it. */
  lemma LastVersionChosenIff(saves: seq<Save>, project: string, file: string, md5: Digest, names: seq<string>)
    requires Last(saves, project, file).Some? && IsListing(StoreOf(saves, md5), project, file, names)
    ensures var name := VersionName(file, Last(saves, project, file).value.time);
            && names != [] && (project, name) in StoreOf(saves, md5)
            && (names[|names| - 1] == name <==> AllSortBefore(saves, project, file, name))
  {
    hide StoreOf, Leq, Last, Decimal;
    var i := LastIsOf(saves, project, file);
    var name := VersionName(file, Last(saves, project, file).value.time);
    StoredNames(saves, project, name, md5);
    assert Writes(saves[i], project, name);
    assert file <= name && name in names;
    NoneBehindIff(saves, project, file, name, md5);
    ChosenIff(StoreOf(saves, md5), project, file, names, name);
  }

  /** What the last save to write an entry of that name left in it. */
  function LastWritten(saves: seq<Save>, project: string, name: string, md5: Digest): Option<seq<octet>>
  {
    if saves == [] then None
    else
      var s := saves[|saves| - 1];
      if s.project == project && ChecksumName(s.file) == name then Some(md5(s.bytes))
      else if s.project == project && VersionName(s.file, s.time) == name then Some(s.bytes)
      else LastWritten(saves[..|saves| - 1], project, name, md5)
  }

  lemma {:induction false} StoreHoldsLastWritten(saves: seq<Save>, project: string, name: string, md5: Digest)
    ensures var files := StoreOf(saves, md5);
            LastWritten(saves, project, name, md5) ==
            if (project, name) in files then Some(files[(project, name)]) else None
  {
    hide VersionName, ChecksumName;
    if saves != [] {
      StoreHoldsLastWritten(saves[..|saves| - 1], project, name, md5);
    }
  }

  /** A load returns the last save exactly when, of all the history has written, nothing sorts behind the
      version and nothing has replaced its contents. */
  lemma LoadIsLastSaveIff(saves: seq<Save>, project: string, file: string, md5: Digest, names: seq<string>)
    requires Last(saves, project, file).Some? && IsListing(StoreOf(saves, md5), project, file, names)
    ensures names != [] && (project, names[|names| - 1]) in StoreOf(saves, md5)
    ensures var s := Last(saves, project, file).value;
            var chosen := names[|names| - 1];
            chosen == VersionName(file, s.time) && StoreOf(saves, md5)[(project, chosen)] == s.bytes <==>
            AllSortBefore(saves, project, file, VersionName(file, s.time)) &&
            LastWritten(saves, project, VersionName(file, s.time), md5) == Some(s.bytes)
  {
    hide StoreOf, Leq, Last, Decimal, AllSortBefore, LastWritten;
    LastVersionChosenIff(saves, project, file, md5, names);
    assert names[|names| - 1] in names;
    StoreHoldsLastWritten(saves, project, VersionName(file, Last(saves, project, file).value.time), md5);
  }

  // ---------- the two conditions in terms of file names and times ----------

  lemma DotSplits(a: string, x: string, b: string, y: string)
    requires '.' !in x && '.' !in y && a + ("." + x) == b + ("." + y)
    ensures a == b && x == y
  {
    var k := a + ("." + x);
    assert |a| == |b| by {
      assert k[|a|] == '.' && k[|b|] == '.';
      assert forall i | |a| < i < |k| :: k[i] == x[i - |a| - 1];
      assert forall i | |b| < i < |k| :: k[i] == y[i - |b| - 1];
    }
    assert a == k[..|a|] && b == k[..|a|];
    assert x == k[|a| + 1..] && y == k[|a| + 1..];
  }

  lemma VersionNameSplits(file: string, time: nat, file': string, time': nat)
    requires VersionName(file, time) == VersionName(file', time')
    ensures file == file' && time == time'
  {
    hide Decimal;
    DotSplits(file, Decimal(time), file', Decimal(time'));
    DecimalInjective(time, time');
  }

  /** Only a file called "md5", or whose name begins with "md5.", can have a checksum file's name. */
  lemma ChecksumApart(file: string, time: nat, other: string)
    requires !("md5." <= file + ".")
    ensures VersionName(file, time) != ChecksumName(other)
  {
    hide Decimal;
    var v, c := VersionName(file, time), ChecksumName(other);
    if |file| >= 3 {
      assert (file + ".")[..4] == v[..4];
      assert c[..4] == "md5.";
    } else {
      assert v[|file|] == '.' && c[0] == 'm' && c[1] == 'd' && c[2] == '5';
    }
  }

  /** Any other file keeps the contents of its last save. */
  lemma {:induction false} ContentsAreKept(saves: seq<Save>, project: string, file: string, md5: Digest)
    requires Last(saves, project, file).Some? && !("md5." <= file + ".")
    ensures var s := Last(saves, project, file).value;
            LastWritten(saves, project, VersionName(file, s.time), md5) == Some(s.bytes)
  {
    hide VersionName, ChecksumName;
    var n := |saves| - 1;
    var s, time := saves[n], Last(saves, project, file).value.time;
    ChecksumApart(file, time, s.file);
    if !IsOf(s, project, file) {
      ContentsAreKept(saves[..n], project, file, md5);
      if VersionName(s.file, s.time) == VersionName(file, time) {
        VersionNameSplits(s.file, s.time, file, time);
      }
    }
  }

  lemma VersionsLeqIff(file: string, a: nat, b: nat)
    ensures Leq(VersionName(file, a), VersionName(file, b)) <==> Leq(Decimal(a), Decimal(b))
  {
    LeqCommonPrefix(".", Decimal(a), Decimal(b));
    LeqCommonPrefix(file, "." + Decimal(a), "." + Decimal(b));
  }

  /** When no other entry begins with the file name, the times of its saves decide: the last version is
      chosen exactly when no earlier time is behind it as a text. */
  lemma TimesDecide(saves: seq<Save>, project: string, file: string, md5: Digest, names: seq<string>)
    requires Last(saves, project, file).Some? && IsListing(StoreOf(saves, md5), project, file, names)
    requires NameIsClear(saves, project, file)
    ensures var s := Last(saves, project, file).value;
            && names != []
            && (names[|names| - 1] == VersionName(file, s.time) <==>
                  forall i | 0 <= i < |saves| && IsOf(saves[i], project, file) ::
                    Leq(Decimal(saves[i].time), Decimal(s.time)))
  {
    hide StoreOf, Leq, Last, Decimal, LastWritten, VersionName, ChecksumName;
    LastVersionChosenIff(saves, project, file, md5, names);
    var s := Last(saves, project, file).value;
    forall i | 0 <= i < |saves| && saves[i].project == project
      ensures SortsBefore(saves[i], file, VersionName(file, s.time)) <==>
              (IsOf(saves[i], project, file) ==> Leq(Decimal(saves[i].time), Decimal(s.time)))
    {
      assert ClearOf(saves[i], file);
      VersionsLeqIff(file, saves[i].time, s.time);
      BeginsWithFile(file, saves[i].time);
    }
  }

  lemma BeginsWithFile(file: string, time: nat)
    ensures file <= VersionName(file, time)
  {
    hide Decimal;
  }

  // ---------- the class ----------

  const REPLY_NAME := "SettingsFile"
  const FIELD_NAMES := ["ProjectName", "Filename", "UNIXTIME", "MD5", "base64data"]

  /** The reply to a load that chose the entry `chosen`. */
  function LoadedItem(project: string, file: string, chosen: string, bytes: seq<octet>, md5: Digest): Item
    requires |chosen| > |file|
  {
    ObjectItem(REPLY_NAME, FieldsOf([project, file, chosen[|file| + 1..], md5(bytes), Encode(bytes)]))
  }

  function FieldsOf(values: seq<string>): seq<(string, string)>
    requires |values| == 5
  {
    [("ProjectName", values[0]), ("Filename", values[1]), ("UNIXTIME", values[2]),
     ("MD5", values[3]), ("base64data", values[4])]
  }

  class SettingsFileDatabase {
    var files: Files
    const md5: Digest

    constructor (md5: Digest)
      ensures files == map[] && this.md5 == md5
    {
      this.md5 := md5;
      files := map[];
    }

    /** The loop that collects one name up to the next NUL; slashes are left out. */
    static method ReadName(data: seq<octet>, start: nat) returns (name: string, ptr: nat)
      ensures start <= |data| ==> name == WithoutSlashes(CStr(data[start..])) && ptr == start + |CStr(data[start..])|
      ensures start > |data| ==> name == "" && ptr == start
    {
      hide WithoutSlashes, CStr, NameSoFar;
      ptr := start;
      name := "";
      NameStarts(data, start);
      while ptr < |data|
        invariant NameSoFar(data, start, ptr, name)
      {
        if data[ptr] == NUL {
          break;
        }
        NameGoesOn(data, start, ptr, name);
        if data[ptr] != '/' {
          name := name + [data[ptr]];
        }
        ptr := ptr + 1;
      }
      NameEnds(data, start, ptr, name);
    }

    static method ReadFrame(data: seq<octet>) returns (frame: Frame)
      ensures frame == ParseFrame(data)
    {
      hide CStr;
      var project, ptr := ReadName(data, 0);
      assert data[0..] == data;
      ptr := ptr + 1;
      ghost var rest := BehindNul(data);
      assert ptr <= |data| ==> data[ptr..] == rest;
      var file;
      ghost var second := ptr;
      file, ptr := ReadName(data, ptr);
      ptr := ptr + 1;
      assert ptr <= |data| ==> data[ptr..] == BehindNul(rest);
      var file_size := |data| - ptr - 1;
      var bytes := if file_size > 0 then data[ptr..ptr + file_size] else [];
      frame := Frame(project, file, bytes);
    }

    method SaveSettingsFile(data: seq<octet>, unixtime: nat)
      modifies this
      ensures var f := ParseFrame(data);
              files == Stored(old(files), Save(f.project, f.file, f.bytes, unixtime), md5)
    {
      var frame := ReadFrame(data);
      var SavePath := VersionName(frame.file, unixtime);
      files := files[(frame.project, SavePath) := frame.bytes];
      files := files[(frame.project, ChecksumName(frame.file)) := md5(frame.bytes)];
    }

    /** `namelist` is what scandir returns for the project directory and the file name. The source
        takes its last element without looking whether there is one; the request's version offset is
        accepted and never used. */
    method LoadSettingsFile(data: seq<octet>, namelist: seq<string>, offset: int, message: MessageHandler)
      requires IsListing(files, ParseFrame(data).project, ParseFrame(data).file, namelist)
      requires namelist != [] && |namelist[|namelist| - 1]| > |ParseFrame(data).file|
      modifies message
      ensures var f := ParseFrame(data);
              var chosen := namelist[|namelist| - 1];
              && (f.project, chosen) in files
              && message.JSONMessageQueue == old(message.JSONMessageQueue) +
                   [Print(LoadedItem(f.project, f.file, chosen, files[(f.project, chosen)], md5))]
      ensures message.JSONErrorQueue == old(message.JSONErrorQueue)
    {
      var frame := ReadFrame(data);
      var chosenFile := namelist[|namelist| - 1];
      assert chosenFile in namelist;
      var buf := files[(frame.project, chosenFile)];
      var result := md5(buf);
      var data64 := base64_encode(buf);
      var ChosenFileDate := chosenFile[|frame.file| + 1..];
      QueueFields([frame.project, frame.file, ChosenFileDate, result, data64], message);
    }

    /** The queueing call of the reply, with the five values and their sizes. */
    static method QueueFields(values: seq<string>, message: MessageHandler)
      requires |values| == 5
      modifies message
      ensures message.JSONMessageQueue == old(message.JSONMessageQueue) + [Print(ObjectItem(REPLY_NAME, FieldsOf(values)))]
      ensures message.JSONErrorQueue == old(message.JSONErrorQueue)
    {
      FieldNamesAreCStrings();
      FieldsAreZipped(values);
      message.QueueObject(REPLY_NAME, FIELD_NAMES, values, Sizes(values));
    }
  }

  ghost predicate NameSoFar(data: seq<octet>, start: nat, ptr: nat, name: string)
  {
    if start > |data| then name == "" && ptr == start
    else start <= ptr <= |data| && NUL !in data[start..ptr] && name == WithoutSlashes(data[start..ptr])
  }

  lemma NameStarts(data: seq<octet>, start: nat)
    ensures NameSoFar(data, start, start, "")
  {
  }

  lemma NameEnds(data: seq<octet>, start: nat, ptr: nat, name: string)
    requires NameSoFar(data, start, ptr, name) && (ptr < |data| ==> data[ptr] == NUL)
    ensures start <= |data| ==> name == WithoutSlashes(CStr(data[start..])) && ptr == start + |CStr(data[start..])|
    ensures start > |data| ==> name == "" && ptr == start
  {
    if start <= |data| {
      CStrUnique(data[start..], data[start..ptr]);
    }
  }

  lemma NameGoesOn(data: seq<octet>, start: nat, ptr: nat, name: string)
    requires ptr < |data| && NameSoFar(data, start, ptr, name) && data[ptr] != NUL
    ensures NameSoFar(data, start, ptr + 1, if data[ptr] == '/' then name else name + [data[ptr]])
  {
    hide WithoutSlashes;
    SlashesAppend(data[start..ptr], data[ptr]);
    assert data[start..ptr + 1] == data[start..ptr] + [data[ptr]];
  }

  lemma FieldNamesAreCStrings()
    ensures forall s | s in FIELD_NAMES :: NUL !in s
    ensures forall s | s in FIELD_NAMES :: Plain(s)
  {
  }

  function Sizes(values: seq<string>): (r: seq<nat>)
    ensures |r| == |values| && forall i | 0 <= i < |r| :: r[i] == |values[i]|
  {
    seq(|values|, i requires 0 <= i < |values| => |values[i]|)
  }

  lemma FieldsAreZipped(values: seq<string>)
    requires |values| == 5 && forall s | s in FIELD_NAMES :: NUL !in s
    ensures Fields(FIELD_NAMES, values, Sizes(values)) == FieldsOf(values)
  {
    assert forall i | 0 <= i < 5 :: values[i][..Sizes(values)[i]] == values[i];
  }

  lemma {:induction false} SlashesAppend(s: string, c: char)
    ensures WithoutSlashes(s + [c]) == if c == '/' then WithoutSlashes(s) else WithoutSlashes(s) + [c]
  {
    if s == "" {
      assert s + [c] == [c] && [c][1..] == "";
    } else {
      assert (s + [c])[1..] == s[1..] + [c];
      SlashesAppend(s[1..], c);
    }
  }

  // ---------- the end-to-end law ----------

  lemma LoadedItemIsClean(project: string, file: string, time: nat, bytes: seq<octet>, md5: Digest)
    requires Plain(project) && Plain(file) && Plain(md5(bytes))
    ensures var item := LoadedItem(project, file, VersionName(file, time), bytes, md5);
            Clean(item) && item.fields[2].1 == Decimal(time)
  {
    hide Encode, Decimal;
    var item := LoadedItem(project, file, VersionName(file, time), bytes, md5);
    assert VersionName(file, time)[|file| + 1..] == Decimal(time);
    EncodeAlphabet(bytes);
    forall c | c in Encode(bytes) ensures !Control(c) && c != '\\' && c != '"' {
      var i :| 0 <= i < |Encode(bytes)| && Encode(bytes)[i] == c;
      assert DigitValue(c).Some? || c == '=';
    }
    FieldNamesAreCStrings();
  }

  /** What is loaded is what was saved last. After any history of saves of which nothing sorts behind the
      last version or has replaced its contents, the reply to a load, read as JSON, names the project, the
      file and the time of the last save, and its base64 field decodes to the bytes of that save. */
  lemma LoadReturnsLastSave(saves: seq<Save>, project: string, file: string, md5: Digest,
                            names: seq<string>, clock: string)
    requires Last(saves, project, file).Some?
    requires var s := Last(saves, project, file).value;
             && AllSortBefore(saves, project, file, VersionName(file, s.time))
             && LastWritten(saves, project, VersionName(file, s.time), md5) == Some(s.bytes)
    requires Plain(clock) && Plain(project) && Plain(file)
    requires forall b: seq<octet> :: Plain(md5(b))
    requires IsListing(StoreOf(saves, md5), project, file, names)
    ensures names != [] && |names[|names| - 1]| > |file|
    ensures (project, names[|names| - 1]) in StoreOf(saves, md5)
    ensures var s := Last(saves, project, file).value;
            var chosen := names[|names| - 1];
            var item := LoadedItem(project, file, chosen, StoreOf(saves, md5)[(project, chosen)], md5);
            && Parse(Reply(clock, [Print(item)])) ==
                 Some(Object([Member("MIDASTime", Text(clock)),
                              Member("SettingsFile", Object([
                                Member("ProjectName", Text(project)),
                                Member("Filename", Text(file)),
                                Member("UNIXTIME", Text(Decimal(s.time))),
                                Member("MD5", Text(md5(s.bytes))),
                                Member("base64data", Text(Encode(s.bytes)))]))]))
            && Decode(Encode(s.bytes)) == Some(s.bytes)
  {
    var s := Last(saves, project, file).value;
    var name := VersionName(file, s.time);
    LoadIsLastSaveIff(saves, project, file, md5, names);
    LoadedReply(project, file, s.time, s.bytes, md5, clock);
    DecodeEncode(s.bytes);
  }

  /** Orderly saves of a name of its own meet both conditions. */
  lemma OrderlySavesAreLoaded(saves: seq<Save>, project: string, file: string, md5: Digest)
    requires OrderlyTimes(saves, project, file) && NameIsClear(saves, project, file)
    requires Last(saves, project, file).Some?
    ensures var s := Last(saves, project, file).value;
            && AllSortBefore(saves, project, file, VersionName(file, s.time))
            && LastWritten(saves, project, VersionName(file, s.time), md5) == Some(s.bytes)
  {
    hide StoreOf, Leq, Last, Decimal, AllSortBefore, LastWritten;
    var name := VersionName(file, Last(saves, project, file).value.time);
    NewestIsLast(saves, project, file, md5);
    NoneBehindIff(saves, project, file, name, md5);
    StoreHoldsLastWritten(saves, project, name, md5);
  }

  lemma LoadedReply(project: string, file: string, time: nat, bytes: seq<octet>, md5: Digest, clock: string)
    requires Plain(clock) && Plain(project) && Plain(file) && Plain(md5(bytes))
    ensures Parse(Reply(clock, [Print(LoadedItem(project, file, VersionName(file, time), bytes, md5))])) ==
            Some(Object([Member("MIDASTime", Text(clock)),
                         Member("SettingsFile", Object([
                           Member("ProjectName", Text(project)),
                           Member("Filename", Text(file)),
                           Member("UNIXTIME", Text(Decimal(time))),
                           Member("MD5", Text(md5(bytes))),
                           Member("base64data", Text(Encode(bytes)))]))]))
  {
    var item := LoadedItem(project, file, VersionName(file, time), bytes, md5);
    LoadedItemIsClean(project, file, time, bytes, md5);
    ReplyRoundTrip(clock, [item]);
    assert PrintAll([item]) == [Print(item)];
    assert Meanings([item]) == [Meaning(item)];
    LoadedMeanings(project, file, VersionName(file, time), bytes, md5);
    assert VersionName(file, time)[|file| + 1..] == Decimal(time);
    assert [Member("MIDASTime", Text(clock))] + [Meaning(item)] == [Member("MIDASTime", Text(clock)), Meaning(item)];
  }

  lemma LoadedMeanings(project: string, file: string, chosen: string, bytes: seq<octet>, md5: Digest)
    requires |chosen| > |file|
    ensures Meaning(LoadedItem(project, file, chosen, bytes, md5)) ==
            Member("SettingsFile", Object([
              Member("ProjectName", Text(project)),
              Member("Filename", Text(file)),
              Member("UNIXTIME", Text(chosen[|file| + 1..])),
              Member("MD5", Text(md5(bytes))),
              Member("base64data", Text(Encode(bytes)))]))
  {
    var fields := LoadedItem(project, file, chosen, bytes, md5).fields;
    assert FieldMeanings(fields) == [
      Member("ProjectName", Text(project)),
      Member("Filename", Text(file)),
      Member("UNIXTIME", Text(chosen[|file| + 1..])),
      Member("MD5", Text(md5(bytes))),
      Member("base64data", Text(Encode(bytes)))];
  }

  // ---------- where the law fails ----------

  /** A file called "m" loads its own checksum file: "md5.m" begins with "m" and sorts behind "m.100". */
  lemma ChecksumFileCanBeChosen(bytes: seq<octet>, md5: Digest, names: seq<string>)
    requires IsListing(StoreOf([Save("p", "m", bytes, 100)], md5), "p", "m", names)
    ensures names != [] && names[|names| - 1] == "md5.m"
  {
    var files := StoreOf([Save("p", "m", bytes, 100)], md5);
    OneSaveStored(Save("p", "m", bytes, 100), md5);
    assert ChecksumName("m") == "md5.m";
    assert ("p", "md5.m") in files && "md5.m" in names;
    assert VersionName("m", 100)[0] == 'm' && VersionName("m", 100)[1] == '.';
    LeqReflexive("md5.m");
    assert Leq(VersionName("m", 100), "md5.m") by {
      assert VersionName("m", 100)[1..][0] == '.' && "md5.m"[1..][0] == 'd';
    }
    ChosenIff(files, "p", "m", names, "md5.m");
  }

  /** The checksum of a file called "12" replaces the version of "md5" saved at time 12. */
  lemma ChecksumCanReplaceAVersion(bytes: seq<octet>, other: seq<octet>, md5: Digest)
    ensures var saves := [Save("p", "md5", bytes, 12), Save("p", "12", other, 20)];
            LastWritten(saves, "p", VersionName("md5", 12), md5) == Some(md5(other))
  {
    assert Decimal(1) == "1" && Decimal(12) == "12";
    assert VersionName("md5", 12) == "md5.12" == ChecksumName("12");
  }

  lemma OneSaveStored(s: Save, md5: Digest)
    ensures StoreOf([s], md5) == Stored(map[], s, md5)
  {
    assert [s][..0] == [];
  }

  /** When the time gains a digit, the version from before is loaded. */
  lemma OlderVersionCanBeChosen(older: seq<octet>, newer: seq<octet>, md5: Digest, names: seq<string>)
    requires IsListing(StoreOf([Save("p", "f", older, 999), Save("p", "f", newer, 1000)], md5), "p", "f", names)
    ensures names != [] && names[|names| - 1] == VersionName("f", 999)
  {
    hide Decimal, StoreOf, NoneBehind;
    var saves := [Save("p", "f", older, 999), Save("p", "f", newer, 1000)];
    var files, name := StoreOf(saves, md5), VersionName("f", 999);
    TwoSavesStored(older, newer, md5);
    Numerals();
    assert name in names;
    ChosenIff(files, "p", "f", names, name);
  }

  lemma Numerals()
    ensures Decimal(999) == "999" && Decimal(1000) == "1000"
  {
    assert Decimal(9) == "9" && Decimal(10) == "10" && Decimal(1) == "1";
    assert Decimal(99) == "99" && Decimal(100) == "100";
  }

  lemma TwoSavesStored(older: seq<octet>, newer: seq<octet>, md5: Digest)
    ensures var files := StoreOf([Save("p", "f", older, 999), Save("p", "f", newer, 1000)], md5);
            ("p", VersionName("f", 999)) in files && NoneBehind(files, "p", "f", VersionName("f", 999))
  {
    hide Decimal, StoreOf;
    var saves := [Save("p", "f", older, 999), Save("p", "f", newer, 1000)];
    StoredNames(saves, "p", VersionName("f", 999), md5);
    assert Writes(saves[0], "p", VersionName("f", 999));
    NoneBehindIff(saves, "p", "f", VersionName("f", 999), md5);
    Numerals();
    LeqReflexive(VersionName("f", 999));
    VersionsLeqIff("f", 1000, 999);
    assert !("f" <= ChecksumName("f"));
  }
}
