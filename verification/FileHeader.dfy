/** libGEM/src/feGEM_module.cxx:218-238: the header in front of a file in a FILE bank. */
module FileHeader {
  import opened CStrings

  datatype FileInfo = FileInfo(filename: string, filepath: string, md5: string, found: bool)

  const NO_FILE := FileInfo("", "", "", false)
  const HEADER_ITEMS: nat := 10

  /** One item, by its first characters. */
  function NextItem(h: FileInfo, line: string): FileInfo
  {
    if "Filename:" <= line then h.(filename := line[9..])
    else if "FilePath:" <= line then h.(filepath := line[9..])
    else if "MD5:" <= line then h.(md5 := line[4..])
    else if "FILE:" <= line then h.(found := true)
    else h
  }

  predicate Complete(h: FileInfo)
  {
    h.filename != "" && h.filepath != "" && h.md5 != "" && h.found
  }

  /** The scan over at most `n` items; it stops once everything has been seen. */
  function ScanHeader(data: seq<octet>, n: nat, h: FileInfo): FileInfo
    decreases n
  {
    if n == 0 then h
    else
      var next := NextItem(h, CStr(data));
      if Complete(next) then next else ScanHeader(BehindNul(data), n - 1, next)
  }

  /** The scan does not leave the data: each item it looks at is terminated, or is the file itself. */
  predicate HeaderInside(data: seq<octet>, n: nat, h: FileInfo)
    decreases n
  {
    n > 0 ==>
      var next := NextItem(h, CStr(data));
      && (NUL in data || "FILE:" <= data)
      && (!Complete(next) ==> NUL in data && HeaderInside(BehindNul(data), n - 1, next))
  }

  /** The loop, over the memory from `start` on. */
  method ReadHeader(buf: array<octet>, start: nat, ghost data: seq<octet>) returns (h: FileInfo)
    requires start <= buf.Length && data <= buf[start..] && HeaderInside(data, HEADER_ITEMS, NO_FILE)
    ensures h == ScanHeader(data, HEADER_ITEMS, NO_FILE)
  {
    hide NextItem, HeaderInside, ScanHeader;
    ghost var rest := data;
    var d: nat := start;
    h := NO_FILE;
    for i := 0 to HEADER_ITEMS
      invariant d <= buf.Length && rest <= buf[d..]
      invariant HeaderInside(rest, HEADER_ITEMS - i, h)
      invariant ScanHeader(rest, HEADER_ITEMS - i, h) == ScanHeader(data, HEADER_ITEMS, NO_FILE)
    {
      var line := CStr(buf[d..]);
      ScanStep(rest, HEADER_ITEMS - i, h, buf[d..]);
      h := NextItem(h, line);
      if Complete(h) {
        return;
      }
      d := d + |line| + 1;
      rest := BehindNul(rest);
    }
    ScanNone(rest, h);
  }

  lemma ScanNone(data: seq<octet>, h: FileInfo)
    ensures ScanHeader(data, 0, h) == h
  {
  }

  /** One turn of the loop, which sees all of the memory. */
  lemma ScanStep(data: seq<octet>, n: nat, h: FileInfo, memory: seq<octet>)
    requires n > 0 && data <= memory && HeaderInside(data, n, h)
    ensures var line := CStr(memory);
            var next := NextItem(h, line);
            if Complete(next) then ScanHeader(data, n, h) == next
            else
              && |line| + 1 <= |memory| && BehindNul(data) <= memory[|line| + 1..]
              && HeaderInside(BehindNul(data), n - 1, next)
              && ScanHeader(data, n, h) == ScanHeader(BehindNul(data), n - 1, next)
  {
    ItemFromMemory(h, data, memory);
    if !Complete(NextItem(h, CStr(data))) {
      NextFromMemory(data, memory);
    }
  }

  /** An item reads the same with the rest of the memory behind it. */
  lemma ItemFromMemory(h: FileInfo, data: seq<octet>, memory: seq<octet>)
    requires data <= memory && (NUL in data || "FILE:" <= data)
    ensures NextItem(h, CStr(memory)) == NextItem(h, CStr(data))
  {
    if NUL in data {
      LineFromMemory(data, memory);
    } else {
      BeginsFile(data);
      BeginsFile(memory);
    }
  }

  lemma BeginsFile(data: seq<octet>)
    requires "FILE:" <= data
    ensures "FILE:" <= CStr(data) && CStr(data)[0] == 'F' && CStr(data)[1] == 'I' && CStr(data)[2] == 'L'
  {
    var line := CStr(data);
    assert data[0] == 'F' && data[1] == 'I' && data[2] == 'L' && data[3] == 'E' && data[4] == ':';
    assert |line| < |data| ==> data[|line|] == NUL;
  }

  lemma LineFromMemory(data: seq<octet>, memory: seq<octet>)
    requires data <= memory && NUL in data
    ensures CStr(memory) == CStr(data) && |CStr(data)| < |data|
  {
    assert memory == data + memory[|data|..];
    TextEndsInside(data, memory[|data|..]);
  }

  lemma NextFromMemory(data: seq<octet>, memory: seq<octet>)
    requires data <= memory && NUL in data
    ensures |CStr(memory)| + 1 <= |memory| && BehindNul(data) <= memory[|CStr(memory)| + 1..]
  {
    LineFromMemory(data, memory);
  }

  // ---------- what a sender gets through ----------

  /** A header as a sender writes it, items in this order, and the file behind it. */
  function WriteHeader(name: seq<octet>, path: seq<octet>, md5: seq<octet>, contents: seq<octet>): seq<octet>
  {
    Line("Filename:", name, Line("FilePath:", path, Line("MD5:", md5, "FILE:" + contents)))
  }

  function Line(tag: seq<octet>, text: seq<octet>, rest: seq<octet>): seq<octet>
  {
    (tag + text) + [NUL] + rest
  }

  lemma LineReads(tag: bytestring, text: bytestring, rest: seq<octet>)
    ensures var data := Line(tag, text, rest);
            && CStr(data) == tag + text && NUL in data && BehindNul(data) == rest
            && tag <= CStr(data) && CStr(data)[|tag|..] == text
  {
    var data, line := Line(tag, text, rest), tag + text;
    CStrOfTerminated(line, rest);
    assert data[|line|] == NUL;
    assert data[|line| + 1..] == rest;
  }

  /** The scan of the data gives this result, and stays inside. */
  ghost predicate ScansTo(data: seq<octet>, n: nat, h: FileInfo, r: FileInfo)
  {
    HeaderInside(data, n, h) && ScanHeader(data, n, h) == r
  }

  lemma ScanItem(data: seq<octet>, n: nat, h: FileInfo, next: FileInfo, rest: seq<octet>, r: FileInfo)
    requires n > 0 && NUL in data && NextItem(h, CStr(data)) == next && !Complete(next) && BehindNul(data) == rest
    requires ScansTo(rest, n - 1, next, r)
    ensures ScansTo(data, n, h, r)
  {
  }

  lemma LastItem(name: bytestring, path: bytestring, md5: bytestring, contents: seq<octet>)
    requires name != [] && path != [] && md5 != []
    ensures ScansTo("FILE:" + contents, 7, FileInfo(name, path, md5, false), FileInfo(name, path, md5, true))
  {
    var data := "FILE:" + contents;
    assert "FILE:" <= data;
    BeginsFile(data);
    assert NextItem(FileInfo(name, path, md5, false), CStr(data)) == FileInfo(name, path, md5, true);
  }

  /** The name, the path and the checksum come back, whatever the file holds. */
  lemma HeaderReadsBack(name: bytestring, path: bytestring, md5: bytestring, contents: seq<octet>)
    requires name != [] && path != [] && md5 != []
    ensures ScansTo(WriteHeader(name, path, md5, contents), HEADER_ITEMS, NO_FILE, FileInfo(name, path, md5, true))
  {
    hide NextItem, Line, ScansTo;
    var r, file := FileInfo(name, path, md5, true), "FILE:" + contents;
    var third := Line("MD5:", md5, file);
    var second := Line("FilePath:", path, third);
    var first := Line("Filename:", name, second);
    var h1, h2, h3 := FileInfo(name, "", "", false), FileInfo(name, path, "", false), FileInfo(name, path, md5, false);
    LastItem(name, path, md5, contents);
    ThirdItem(h2, md5, file);
    ScanItem(third, 8, h2, h3, file, r);
    SecondItem(h1, path, third);
    ScanItem(second, 9, h1, h2, third, r);
    FirstItem(name, second);
    ScanItem(first, 10, NO_FILE, h1, second, r);
  }

  lemma FirstItem(name: bytestring, rest: seq<octet>)
    ensures var data := Line("Filename:", name, rest);
            && NextItem(NO_FILE, CStr(data)) == NO_FILE.(filename := name)
            && NUL in data && BehindNul(data) == rest
  {
    LineReads("Filename:", name, rest);
  }

  lemma SecondItem(h: FileInfo, path: bytestring, rest: seq<octet>)
    ensures var data := Line("FilePath:", path, rest);
            NextItem(h, CStr(data)) == h.(filepath := path) && NUL in data && BehindNul(data) == rest
  {
    LineReads("FilePath:", path, rest);
    var line := CStr(Line("FilePath:", path, rest));
    assert line[4] == 'P';
  }

  lemma ThirdItem(h: FileInfo, md5: bytestring, rest: seq<octet>)
    ensures var data := Line("MD5:", md5, rest);
            NextItem(h, CStr(data)) == h.(md5 := md5) && NUL in data && BehindNul(data) == rest
  {
    LineReads("MD5:", md5, rest);
    var line := CStr(Line("MD5:", md5, rest));
    assert line[0] == 'M';
  }
}
