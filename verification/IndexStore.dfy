/** The index as a whole file: written line by line, read through a growing buffer, and loaded again. */
module IndexStore {
  import opened Bytes
  import opened Revocation
  import opened Serials
  import opened CaDatabase
  import opened IndexFile

  /** The step in which the read buffer grows. */
  const BUFSIZE := 512

  /** How much one `BIO_gets` returns: a line with its newline, but at most `max` characters. */
  function GetsLen(s: string, max: nat): (k: nat)
    ensures k <= |s| && k <= max && (k == 0 <==> s == "" || max == 0)
  {
    if s == "" || max == 0 then 0
    else if s[0] == '\n' then 1
    else 1 + GetsLen(s[1..], max - 1)
  }

  function Prepend(rows: seq<seq<string>>, rest: Option<seq<seq<string>>>): Option<seq<seq<string>>> {
    if rest == None then None else Some(rows + rest.value)
  }

  /**
   * What `TXT_DB_read` makes of the rest `s` of a file, with `line` read of the current line and a
   * buffer of `size` characters. A piece that starts a line with '#' is skipped, a last line without
   * newline is dropped, and a line that does not have `num` fields is an error.
   */
  function ReadFrom(s: string, line: string, size: nat, num: nat): (r: Option<seq<seq<string>>>)
    requires num > 0 && |line| < size && size >= BUFSIZE
    decreases |s|
  {
    var size1 := if line != "" then size + BUFSIZE else size;
    var k := GetsLen(s, size1 - |line| - 1);
    if k == 0 then Some([])
    else if line == "" && s[0] == '#' then ReadFrom(s[k..], "", size1, num)
    else if s[k - 1] != '\n' then ReadFrom(s[k..], line + s[..k], size1, num)
    else
      match Parse(line + s[..k - 1], num)
      case None => None
      case Some(row) => Prepend([row], ReadFrom(s[k..], "", size1, num))
  }

  lemma PrependTwice(a: seq<seq<string>>, b: seq<seq<string>>, rest: Option<seq<seq<string>>>)
    ensures Prepend(a, Prepend(b, rest)) == Prepend(a + b, rest)
  {
    if rest.Some? {
      assert a + (b + rest.value) == a + b + rest.value;
    }
  }

  lemma PrependNone(rest: Option<seq<seq<string>>>)
    ensures Prepend([], rest) == rest
  {
    if rest.Some? {
      assert [] + rest.value == rest.value;
    }
  }

  /** `BIO_gets` on the text of a file. */
  method Gets(s: string, pos: nat, max: nat) returns (k: nat)
    requires pos <= |s|
    ensures k == GetsLen(s[pos..], max)
  {
    k := 0;
    assert s[pos..][0..] == s[pos..];
    while k < max && pos + k < |s|
      invariant k <= max && pos + k <= |s|
      invariant GetsLen(s[pos..], max) == k + GetsLen(s[pos + k..], max - k)
    {
      assert s[pos + k..][0] == s[pos + k] && s[pos + k..][1..] == s[pos + k + 1..];
      if s[pos + k] == '\n' {
        return k + 1;
      }
      k := k + 1;
    }
  }

  lemma Unfold(s: string, line: string, size: nat, num: nat)
    requires num > 0 && |line| < size && size >= BUFSIZE
    ensures var size1 := if line != "" then size + BUFSIZE else size;
            var k := GetsLen(s, size1 - |line| - 1);
            var r := ReadFrom(s, line, size, num);
            if k == 0 then r == Some([])
            else if line == "" && s[0] == '#' then r == ReadFrom(s[k..], "", size1, num)
            else if s[k - 1] != '\n' then r == ReadFrom(s[k..], line + s[..k], size1, num)
            else
              var row := Parse(line + s[..k - 1], num);
              r == if row == None then None else Prepend([row.value], ReadFrom(s[k..], "", size1, num))
  {
    hide Parse, GetsLen, Prepend;
  }

  lemma Pieces(s: string, pos: nat, k: nat)
    requires 0 < k && pos + k <= |s|
    ensures s[pos..][0] == s[pos] && s[pos..][k - 1] == s[pos + k - 1] && s[pos..][k..] == s[pos + k..]
    ensures s[pos..][..k] == s[pos..pos + k] && s[pos..][..k - 1] == s[pos..pos + k - 1]
  {
  }

  /** One round of the reader's loop. */
  lemma ReadStep(s: string, pos: nat, line: string, size: nat, num: nat)
    requires num > 0 && pos <= |s| && |line| < size && size >= BUFSIZE
    ensures var size1 := if line != "" then size + BUFSIZE else size;
            var k := GetsLen(s[pos..], size1 - |line| - 1);
            var r := ReadFrom(s[pos..], line, size, num);
            if k == 0 then r == Some([])
            else if line == "" && s[pos] == '#' then r == ReadFrom(s[pos + k..], "", size1, num)
            else if s[pos + k - 1] != '\n' then r == ReadFrom(s[pos + k..], line + s[pos..pos + k], size1, num)
            else
              var row := Parse(line + s[pos..pos + k - 1], num);
              r == if row == None then None else Prepend([row.value], ReadFrom(s[pos + k..], "", size1, num))
  {
    hide Parse, GetsLen, Prepend, ReadFrom;
    var size1 := if line != "" then size + BUFSIZE else size;
    var k := GetsLen(s[pos..], size1 - |line| - 1);
    Unfold(s[pos..], line, size, num);
    if k > 0 {
      Pieces(s, pos, k);
    }
  }

  /** `TXT_DB_read`. */
  method ReadIndex(s: string, num: nat) returns (r: Option<seq<seq<string>>>)
    requires num > 0 && '\0' !in s
    ensures r == ReadFrom(s, "", BUFSIZE, num)
  {
    hide Parse, GetsLen, ReadFrom;
    var rows: seq<seq<string>> := [];
    var pos, line, size := 0, "", BUFSIZE;
    assert s[0..] == s;
    PrependNone(ReadFrom(s, "", BUFSIZE, num));
    while true
      invariant pos <= |s| && |line| < size && size >= BUFSIZE
      invariant ReadFrom(s, "", BUFSIZE, num) == Prepend(rows, ReadFrom(s[pos..], line, size, num))
      decreases |s| - pos
    {
      ReadStep(s, pos, line, size, num);
      if line != "" {
        size := size + BUFSIZE;
      }
      var k := Gets(s, pos, size - |line| - 1);
      if k == 0 {
        break;
      }
      var start := pos;
      pos := pos + k;
      if line == "" && s[start] == '#' {
        continue;
      }
      if s[pos - 1] != '\n' {
        line := line + s[start..pos];
        continue;
      }
      var row := ReadRow(line + s[start..pos - 1], num);
      if row == None {
        return None;
      }
      PrependTwice(rows, [row.value], ReadFrom(s[pos..], "", size, num));
      rows, line := rows + [row.value], "";
    }
    assert rows + [] == rows;
    r := Some(rows);
  }

  /** The file `TXT_DB_write` writes. */
  function FileOf(rows: seq<seq<string>>): string
    requires forall i :: 0 <= i < |rows| ==> rows[i] != []
  {
    if rows == [] then "" else LineOf(rows[0]) + "\n" + FileOf(rows[1..])
  }

  lemma {:induction false} FileSnoc(rows: seq<seq<string>>, r: seq<string>)
    requires r != [] && forall i :: 0 <= i < |rows| ==> rows[i] != []
    ensures FileOf(rows + [r]) == FileOf(rows) + (LineOf(r) + "\n")
  {
    hide LineOf;
    if rows == [] {
      assert rows + [r] == [r] && [r][1..] == [];
    } else {
      assert (rows + [r])[1..] == rows[1..] + [r];
      FileSnoc(rows[1..], r);
      Assoc(LineOf(rows[0]) + "\n", FileOf(rows[1..]), LineOf(r) + "\n");
    }
  }

  /** `TXT_DB_write`; the result is the number of characters. */
  method WriteIndex(rows: seq<seq<string>>) returns (s: string)
    requires forall i :: 0 <= i < |rows| ==> rows[i] != []
    ensures s == FileOf(rows)
  {
    s := "";
    var i := 0;
    while i < |rows|
      invariant 0 <= i <= |rows| && s == FileOf(rows[..i])
    {
      var line := WriteRow(rows[i]);
      FileSnoc(rows[..i], rows[i]);
      assert rows[..i + 1] == rows[..i] + [rows[i]];
      s := s + line;
      i := i + 1;
    }
    assert rows[..i] == rows;
  }

  /** A row that can be told apart in the file: fields and lines keep their ends, and it is no comment. */
  ghost predicate Storable(row: seq<string>) {
    && Separable(row)
    && Free('\n', row)
    && !IsComment(row)
  }

  ghost predicate Free(c: char, row: seq<string>) {
    forall i :: 0 <= i < |row| ==> c !in row[i]
  }

  predicate IsComment(row: seq<string>) {
    row != [] && row[0] != "" && row[0][0] == '#'
  }

  lemma {:induction false} CharsOfEscape(c: char, f: string)
    requires c != '\t' && c != '\\'
    ensures c in Escape(f) <==> c in f
  {
    if f != "" {
      CharsOfEscape(c, f[1..]);
      assert f == [f[0]] + f[1..];
    }
  }

  /** A line holds the characters of its fields, and separators. */
  lemma {:induction false} CharsOfLine(c: char, row: seq<string>)
    requires row != [] && c != '\t' && c != '\\'
    ensures c !in LineOf(row) <==> Free(c, row)
  {
    hide Escape;
    CharsOfEscape(c, row[0]);
    if |row| > 1 {
      CharsOfLine(c, row[1..]);
      FreeStep(c, row);
    }
  }

  lemma FreeStep(c: char, row: seq<string>)
    requires row != []
    ensures Free(c, row) <==> c !in row[0] && Free(c, row[1..])
  {
    var rest := row[1..];
    assert forall i :: 0 <= i < |rest| ==> rest[i] == row[i + 1];
    if c !in row[0] && Free(c, rest) {
      forall i | 0 <= i < |row| ensures c !in row[i] {
        assert i > 0 ==> rest[i - 1] == row[i];
      }
    }
  }

  lemma LineStart(row: seq<string>)
    requires row != []
    ensures LineOf(row) != "" && LineOf(row)[0] == '#' <==> IsComment(row)
  {
    var f := row[0];
    assert f != "" ==> Escape(f) != "" && (Escape(f)[0] == '#' <==> f[0] == '#');
  }

  lemma {:induction false} GetsIs(t: string, rest: string, max: nat)
    requires '\n' !in t
    ensures GetsLen(t + "\n" + rest, max) == if |t| < max then |t| + 1 else max
    decreases |t|
  {
    var s := t + "\n" + rest;
    if t != "" && max > 0 {
      assert s[0] == t[0];
      assert s[1..] == t[1..] + "\n" + rest;
      GetsIs(t[1..], rest, max - 1);
    }
  }

  /** However many pieces a line is read in, it is parsed whole. */
  lemma {:induction false} ReadLine(line: string, t: string, rest: string, size: nat, num: nat) returns (size1: nat)
    requires num > 0 && |line| < size && size >= BUFSIZE && '\n' !in t
    requires line == "" && t != "" ==> t[0] != '#'
    ensures size1 >= BUFSIZE
    ensures ReadFrom(t + "\n" + rest, line, size, num) ==
            if Parse(line + t, num) == None then None
            else Prepend([Parse(line + t, num).value], ReadFrom(rest, "", size1, num))
    decreases |t|
  {
    hide Parse, GetsLen, Prepend, ReadFrom;
    var s := t + "\n" + rest;
    Unfold(s, line, size, num);
    size1 := if line != "" then size + BUFSIZE else size;
    var max := size1 - |line| - 1;
    GetsIs(t, rest, max);
    if |t| < max {
      var k := |t| + 1;
      assert s[..k - 1] == t && s[k..] == rest && s[k - 1] == '\n';
      assert line == "" ==> s[0] != '#';
    } else {
      assert s[..max] == t[..max] && s[max..] == t[max..] + "\n" + rest && s[max - 1] == t[max - 1] && s[0] == t[0];
      assert line + t[..max] + t[max..] == line + t by {
        assert t[..max] + t[max..] == t;
        Assoc(line, t[..max], t[max..]);
      }
      assert t[max - 1] != '\n';
      size1 := ReadLine(line + t[..max], t[max..], rest, size1, num);
    }
  }

  /** A line that starts with '#' is skipped, as far as the buffer reaches; what is beyond is read as a new line. */
  lemma {:induction false} CommentSkipped(t: string, rest: string, size: nat, num: nat)
    requires num > 0 && size >= BUFSIZE && '\n' !in t && t != "" && t[0] == '#'
    ensures ReadFrom(t + "\n" + rest, "", size, num) ==
            if |t| < size - 1 then ReadFrom(rest, "", size, num)
            else ReadFrom(t[size - 1..] + "\n" + rest, "", size, num)
  {
    hide ReadFrom, GetsLen;
    LinePieces(t, rest, size - 1);
    CommentRead(t + "\n" + rest, size, num);
    GetsIs(t, rest, size - 1);
  }

  lemma CommentRead(s: string, size: nat, num: nat)
    requires num > 0 && size >= BUFSIZE && s != "" && s[0] == '#'
    ensures ReadFrom(s, "", size, num) == ReadFrom(s[GetsLen(s, size - 1)..], "", size, num)
  {
    hide Parse, Prepend, ReadFrom, GetsLen;
    Unfold(s, "", size, num);
  }

  lemma LinePieces(t: string, rest: string, k: nat)
    requires t != ""
    ensures (t + "\n" + rest)[0] == t[0] && (t + "\n" + rest)[|t| + 1..] == rest
    ensures k <= |t| ==> (t + "\n" + rest)[k..] == t[k..] + "\n" + rest
  {
  }

  /** A last line without newline is dropped, however long it is. */
  lemma {:induction false} LastLineDropped(t: string, line: string, size: nat, num: nat)
    requires num > 0 && |line| < size && size >= BUFSIZE && '\n' !in t
    ensures ReadFrom(t, line, size, num) == Some([])
    decreases |t|
  {
    hide Parse, Prepend, ReadFrom, GetsLen;
    Unfold(t, line, size, num);
    var size1 := if line != "" then size + BUFSIZE else size;
    var k := GetsLen(t, size1 - |line| - 1);
    if k > 0 {
      if line == "" && t[0] == '#' {
        LastLineDropped(t[k..], "", size1, num);
      } else {
        LastLineDropped(t[k..], line + t[..k], size1, num);
      }
    }
  }

  function ParseRows(rows: seq<seq<string>>, num: nat): Option<seq<seq<string>>>
    requires num > 0 && forall i :: 0 <= i < |rows| ==> rows[i] != []
  {
    if rows == [] then Some([])
    else match Parse(LineOf(rows[0]), num)
      case None => None
      case Some(row) => Prepend([row], ParseRows(rows[1..], num))
  }

  /** Rows without newlines and comment signs are read line by line. */
  lemma {:induction false} ReadRows(rows: seq<seq<string>>, size: nat, num: nat)
    requires num > 0 && size >= BUFSIZE && Clean(rows) && forall i :: 0 <= i < |rows| ==> rows[i] != []
    ensures ReadFrom(FileOf(rows), "", size, num) == ParseRows(rows, num)
  {
    hide Parse, Prepend, LineOf, Free, IsComment;
    if rows == [] {
      assert GetsLen("", size - 1) == 0;
    } else {
      var t := LineOf(rows[0]);
      CharsOfLine('\n', rows[0]);
      LineStart(rows[0]);
      var size1 := ReadLine("", t, FileOf(rows[1..]), size, num);
      assert "" + t == t;
      ReadRows(rows[1..], size1, num);
    }
  }

  lemma {:induction false} ParseEach(rows: seq<seq<string>>, num: nat)
    requires num > 0 && forall i :: 0 <= i < |rows| ==> |rows[i]| == num
    ensures ParseRows(rows, num) == Some(rows) <==> forall i :: 0 <= i < |rows| ==> Separable(rows[i])
    ensures ParseRows(rows, num).Some? ==> ParseRows(rows, num) == Some(rows)
  {
    hide Parse, LineOf, Separable;
    if rows != [] {
      var r, rest := rows[0], rows[1..];
      LineRoundTrip(r);
      ParseEach(rest, num);
      assert [r] + rest == rows && forall i :: 0 <= i < |rest| ==> rest[i] == rows[i + 1];
      assert (forall i :: 0 <= i < |rows| ==> Separable(rows[i])) <==>
             Separable(r) && forall i :: 0 <= i < |rest| ==> Separable(rest[i]) by {
        if Separable(r) && forall i :: 0 <= i < |rest| ==> Separable(rest[i]) {
          forall i | 0 <= i < |rows| ensures Separable(rows[i]) {
            assert i > 0 ==> rest[i - 1] == rows[i];
          }
        }
      }
    }
  }

  lemma {:induction false} CharsOfFields(c: char, line: string, cur: string)
    requires c !in line && c !in cur && c != '\t'
    ensures Free(c, FieldsFrom(line, cur))
    decreases |line|
  {
    if line != "" {
      assert line[0] in line && c !in line[1..];
      if line[0] == '\t' {
        if EndsInBackslash(cur) {
          CharsOfFields(c, line[1..], cur[..|cur| - 1] + "\t");
        } else {
          CharsOfFields(c, line[1..], "");
          FreeStep(c, FieldsFrom(line, cur));
        }
      } else {
        CharsOfFields(c, line[1..], cur + [line[0]]);
      }
    }
  }

  /** A first field that starts with '#' comes from a line that does. */
  lemma {:induction false} StartOfFields(line: string, cur: string)
    ensures IsComment(FieldsFrom(line, cur)) ==>
              if cur != "" then cur[0] == '#' else line != "" && line[0] == '#'
    decreases |line|
  {
    if line != "" {
      if line[0] == '\t' {
        if EndsInBackslash(cur) {
          StartOfFields(line[1..], cur[..|cur| - 1] + "\t");
        }
      } else {
        StartOfFields(line[1..], cur + [line[0]]);
      }
    }
  }

  /** A field before a separator never ends in a backslash: it would have swallowed the separator. */
  lemma {:induction false} FieldsSeparable(line: string, cur: string)
    ensures Separable(FieldsFrom(line, cur))
    decreases |line|
  {
    if line != "" {
      if line[0] == '\t' {
        if EndsInBackslash(cur) {
          FieldsSeparable(line[1..], cur[..|cur| - 1] + "\t");
        } else {
          FieldsSeparable(line[1..], "");
          SeparableStep([cur] + FieldsFrom(line[1..], ""));
          assert ([cur] + FieldsFrom(line[1..], ""))[1..] == FieldsFrom(line[1..], "");
        }
      } else {
        FieldsSeparable(line[1..], cur + [line[0]]);
      }
    }
  }

  ghost predicate Clean(rows: seq<seq<string>>) {
    forall i :: 0 <= i < |rows| ==> Free('\n', rows[i]) && !IsComment(rows[i])
  }

  /** Rows of the right width, each of which can be told apart in a file. */
  ghost predicate AllStorable(rows: seq<seq<string>>, num: nat) {
    forall i :: 0 <= i < |rows| ==> |rows[i]| == num && Storable(rows[i])
  }

  lemma ParsedStorable(line: string, num: nat)
    requires num > 0 && '\n' !in line && (line != "" ==> line[0] != '#')
    ensures Parse(line, num).Some? ==> |Parse(line, num).value| == num && Storable(Parse(line, num).value)
  {
    hide FieldsFrom, EndsInBackslash;
    CharsOfFields('\n', line, "");
    StartOfFields(line, "");
    FieldsSeparable(line, "");
  }

  lemma StorableMore(row: seq<string>, rows: seq<seq<string>>, num: nat)
    requires |row| == num && Storable(row) && AllStorable(rows, num)
    ensures AllStorable([row] + rows, num)
  {
    hide Storable;
  }

  lemma {:induction false} GetsNoNewline(s: string, max: nat)
    ensures var k := GetsLen(s, max); k > 0 ==> '\n' !in s[..k - 1]
    ensures var k := GetsLen(s, max); k > 0 && s[k - 1] != '\n' ==> '\n' !in s[..k]
  {
    if s != "" && max > 0 && s[0] != '\n' {
      GetsNoNewline(s[1..], max - 1);
      var k := GetsLen(s[1..], max - 1);
      assert s[..k + 1] == [s[0]] + s[1..][..k];
      assert k > 0 ==> s[..k] == [s[0]] + s[1..][..k - 1];
    }
  }

  /** Whatever the file, every row that is read can be told apart in a file. */
  lemma {:induction false} ReadStorable(s: string, line: string, size: nat, num: nat)
    requires num > 0 && |line| < size && size >= BUFSIZE
    requires '\n' !in line && (line != "" ==> line[0] != '#')
    ensures ReadFrom(s, line, size, num).Some? ==> AllStorable(ReadFrom(s, line, size, num).value, num)
    decreases |s|
  {
    hide Parse, GetsLen, AllStorable, Storable, ReadFrom;
    Unfold(s, line, size, num);
    var size1 := if line != "" then size + BUFSIZE else size;
    var k := GetsLen(s, size1 - |line| - 1);
    GetsNoNewline(s, size1 - |line| - 1);
    if k == 0 {
      NothingStored(num);
    } else if line == "" && s[0] == '#' {
      ReadStorable(s[k..], "", size1, num);
    } else if s[k - 1] != '\n' {
      ReadStorable(s[k..], line + s[..k], size1, num);
    } else {
      ReadStorable(s[k..], "", size1, num);
      var whole := line + s[..k - 1];
      ParsedStorable(whole, num);
      if Parse(whole, num).Some? && ReadFrom(s[k..], "", size1, num).Some? {
        StorableMore(Parse(whole, num).value, ReadFrom(s[k..], "", size1, num).value, num);
      }
    }
  }

  lemma NothingStored(num: nat)
    ensures AllStorable([], num)
  {
  }

  ghost predicate AllFree(c: char, rows: seq<seq<string>>) {
    forall i :: 0 <= i < |rows| ==> Free(c, rows[i])
  }

  lemma ParsedFree(c: char, line: string, num: nat)
    requires num > 0 && c !in line && c != '\t'
    ensures Parse(line, num).Some? ==> Free(c, Parse(line, num).value)
  {
    hide FieldsFrom;
    CharsOfFields(c, line, "");
  }

  /** A character that is not in the file is in no row. */
  lemma {:induction false} ReadFree(c: char, s: string, line: string, size: nat, num: nat)
    requires num > 0 && |line| < size && size >= BUFSIZE && c !in s && c !in line && c != '\t'
    ensures ReadFrom(s, line, size, num).Some? ==> AllFree(c, ReadFrom(s, line, size, num).value)
    decreases |s|
  {
    hide Parse, GetsLen, Free, ReadFrom;
    Unfold(s, line, size, num);
    var size1 := if line != "" then size + BUFSIZE else size;
    var k := GetsLen(s, size1 - |line| - 1);
    if k > 0 {
      assert c !in s[..k] && c !in s[..k - 1] && c !in s[k..];
      if line == "" && s[0] == '#' {
        ReadFree(c, s[k..], "", size1, num);
      } else if s[k - 1] != '\n' {
        ReadFree(c, s[k..], line + s[..k], size1, num);
      } else {
        ReadFree(c, s[k..], "", size1, num);
        ParsedFree(c, line + s[..k - 1], num);
      }
    }
  }

  /**
   * The index survives being written and read exactly when every row can be told apart: no newline in
   * a field, no row that starts with '#', and no field but the last that ends in a backslash.
   */
  lemma FileRoundTrip(rows: seq<seq<string>>, num: nat)
    requires num > 0 && forall i :: 0 <= i < |rows| ==> |rows[i]| == num
    ensures ReadFrom(FileOf(rows), "", BUFSIZE, num) == Some(rows) <==>
              forall i :: 0 <= i < |rows| ==> Storable(rows[i])
  {
    hide ReadFrom, ParseRows, FileOf, Separable, Free, IsComment;
    ReadStorable(FileOf(rows), "", BUFSIZE, num);
    ParseEach(rows, num);
    if Clean(rows) {
      ReadRows(rows, BUFSIZE, num);
    }
  }

  /** So whatever was read from some file survives every further round of writing and reading. */
  lemma RewriteKeeps(s: string, num: nat)
    requires num > 0 && ReadFrom(s, "", BUFSIZE, num).Some?
    ensures var rows := ReadFrom(s, "", BUFSIZE, num).value;
            && (forall i :: 0 <= i < |rows| ==> rows[i] != [])
            && ReadFrom(FileOf(rows), "", BUFSIZE, num) == Some(rows)
  {
    hide ReadFrom, FileOf, Storable;
    ReadStorable(s, "", BUFSIZE, num);
    FileRoundTrip(ReadFrom(s, "", BUFSIZE, num).value, num);
  }

  /** The fields of all rows. */
  function AllFields(rows: seq<Row>): seq<seq<string>> {
    seq(|rows|, i requires 0 <= i < |rows| => RowFields(rows[i]))
  }

  /** The rows of the fields that were read. */
  function AllRows(fields: seq<seq<string>>): seq<Row>
    requires forall i :: 0 <= i < |fields| ==> |fields[i]| == 6
  {
    seq(|fields|, i requires 0 <= i < |fields| => FieldsRow(fields[i]))
  }

  /** A row as it comes back: a null revocation field has become an empty one. */
  function Reread(rows: seq<Row>): seq<Row> {
    seq(|rows|, i requires 0 <= i < |rows| => rows[i].(revDate := Some(RevField(rows[i]))))
  }

  lemma RereadIs(rows: seq<Row>)
    ensures forall i :: 0 <= i < |rows| ==> |AllFields(rows)[i]| == 6
    ensures AllRows(AllFields(rows)) == Reread(rows)
  {
    forall i | 0 <= i < |rows| ensures FieldsRow(RowFields(rows[i])) == rows[i].(revDate := Some(RevField(rows[i]))) {
    }
  }

  lemma RereadLoads(lib: Library, rows: seq<Row>)
    ensures AllLoad(lib, Reread(rows)) <==> AllLoad(lib, rows)
  {
    var t := Reread(rows);
    forall i | 0 <= i < |rows| ensures LoadOk(lib, t[i]) <==> LoadOk(lib, rows[i]) {
      assert RevField(t[i]) == RevField(rows[i]);
    }
  }

  lemma RereadDistinct(db: CaDb, other: CaDb)
    requires db.Indexed() && other.uniqueSubject == db.uniqueSubject
    ensures other.Distinct(Reread(db.rows))
  {
    hide Key;
    var t := Reread(db.rows);
    forall i, j | 0 <= i < j < |t|
      ensures Key(t[i].serial) != Key(t[j].serial)
      ensures db.uniqueSubject && t[i].Status() == VALID && t[j].Status() == VALID ==> t[i].name != t[j].name
    {
      db.NoClash(i, j);
    }
  }

  /** The row can be told apart in the file and is made of C strings. */
  ghost predicate SaveableRow(r: Row) {
    Storable(RowFields(r)) && Free('\0', RowFields(r))
  }

  ghost predicate Saveable(rows: seq<Row>) {
    forall i :: 0 <= i < |rows| ==> SaveableRow(rows[i])
  }

  /** Text without newline and terminator. */
  ghost predicate OneLine(s: string) { '\n' !in s && '\0' !in s }

  /** Such a text that also leaves the separator behind it alone. */
  ghost predicate Plain(s: string) { OneLine(s) && !EndsInBackslash(s) }

  /** What makes a row saveable, field by field. */
  lemma SaveableRowIs(r: Row)
    ensures SaveableRow(r) <==>
              && Plain(r.tag) && Plain(r.expDate) && Plain(RevField(r)) && Plain(r.serial) && Plain(r.file)
              && OneLine(r.name) && r.Status() != '#'
  {
    hide EndsInBackslash;
    var f := RowFields(r);
    assert f[0] == r.tag && f[1] == r.expDate && f[2] == RevField(r);
    assert f[3] == r.serial && f[4] == r.file && f[5] == r.name;
  }

  lemma {:induction false} CharsOfFile(c: char, rows: seq<seq<string>>)
    requires c != '\t' && c != '\\' && c != '\n' && forall i :: 0 <= i < |rows| ==> rows[i] != [] && Free(c, rows[i])
    ensures c !in FileOf(rows)
  {
    hide LineOf, Free;
    if rows != [] {
      CharsOfLine(c, rows[0]);
      CharsOfFile(c, rows[1..]);
    }
  }

  lemma SaveableFields(rows: seq<Row>)
    requires Saveable(rows)
    ensures forall i :: 0 <= i < |rows| ==>
              var f := AllFields(rows)[i]; |f| == 6 && f != [] && Storable(f) && Free('\0', f)
    ensures forall i :: 0 <= i < |rows| ==> '\0' !in RevField(rows[i])
  {
    hide Storable;
    forall i | 0 <= i < |rows| ensures '\0' !in RevField(rows[i]) {
      assert RowFields(rows[i])[2] == RevField(rows[i]);
    }
  }

  /**
   * `save_index` and then, in another run, `load_index` with the checks of `ca_main`. A sound index
   * comes back row by row, and it loads exactly when its rows pass the load check. An empty index is
   * not saved: writing no characters counts as an error.
   */
  method SaveAndLoad(db: CaDb) returns (ok: bool, again: CaDb)
    requires db.Sound() && Saveable(db.rows)
    ensures fresh(again) && again.lib == db.lib && again.uniqueSubject == db.uniqueSubject
    ensures ok <==> db.rows != [] && AllLoad(db.lib, db.rows)
    ensures ok ==> again.Valid() && again.rows == Reread(db.rows)
  {
    hide AllLoad, AllSound, Saveable, Storable, Free, FileOf, ReadFrom, AllRows, Reread, RowFields;
    again := new CaDb(db.lib, db.uniqueSubject);
    SaveableFields(db.rows);
    var fields := AllFields(db.rows);
    var text := WriteIndex(fields);
    FileNotEmpty(fields);
    if |text| == 0 {
      return false, again;
    }
    CharsOfFile('\0', fields);
    FileRoundTrip(fields, 6);
    var read := ReadIndex(text, 6);
    RereadIs(db.rows);
    RereadLoads(db.lib, db.rows);
    RereadDistinct(db, again);
    RereadText(db.rows);
    ok := again.Load(AllRows(read.value));
  }

  lemma FileNotEmpty(rows: seq<seq<string>>)
    requires forall i :: 0 <= i < |rows| ==> rows[i] != []
    ensures FileOf(rows) == "" <==> rows == []
  {
  }

  lemma RereadText(rows: seq<Row>)
    ensures |Reread(rows)| == |rows|
    ensures forall i :: 0 <= i < |rows| ==> RevField(Reread(rows)[i]) == RevField(rows[i])
  {
  }
}
