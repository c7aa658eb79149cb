/** The text form of the CA's index: one line a row, fields between tabs, tabs in fields escaped. */
module IndexFile {
  import opened Bytes
  import opened CaDatabase

  /** A field as it is written: a backslash before each tab, and nothing else escaped. */
  function Escape(s: string): string {
    if s == "" then "" else (if s[0] == '\t' then "\\\t" else [s[0]]) + Escape(s[1..])
  }

  function LineOf(fields: seq<string>): string
    requires fields != []
  {
    if |fields| == 1 then Escape(fields[0]) else Escape(fields[0]) + "\t" + LineOf(fields[1..])
  }

  predicate EndsInBackslash(s: string) { s != "" && s[|s| - 1] == '\\' }

  /** The fields of a line: a tab ends a field unless a backslash stands before it, which it replaces. */
  function FieldsFrom(line: string, cur: string): (r: seq<string>)
    ensures r != []
  {
    if line == "" then [cur]
    else if line[0] == '\t' then
      if EndsInBackslash(cur) then FieldsFrom(line[1..], cur[..|cur| - 1] + "\t")
      else [cur] + FieldsFrom(line[1..], "")
    else FieldsFrom(line[1..], cur + [line[0]])
  }

  /** A line is good with exactly `num` fields, or with one more that is empty. */
  function Parse(line: string, num: nat): Option<seq<string>>
    requires num > 0
  {
    var r := FieldsFrom(line, "");
    if |r| == num || (|r| == num + 1 && r[num] == "") then Some(r[..num]) else None
  }

  /** `TXT_DB_write` for one row; the buffer it asks for, twice the fields and the separators, is enough. */
  method WriteRow(fields: seq<string>) returns (line: string)
    requires fields != []
    ensures line == LineOf(fields) + "\n"
    ensures |line| <= 2 * Total(fields) + |fields|
  {
    line := "";
    var j := 0;
    while j < |fields|
      invariant 0 <= j <= |fields|
      invariant j < |fields| ==> LineOf(fields) == line + LineOf(fields[j..])
      invariant j == |fields| ==> line == LineOf(fields) + "\t"
      invariant |line| <= 2 * Total(fields[..j]) + j
    {
      var text := EscapeField(fields[j]);
      ghost var before := line;
      line := line + text + "\t";
      assert fields[j..][1..] == fields[j + 1..];
      assert fields[..j + 1] == fields[..j] + [fields[j]];
      TotalSnoc(fields[..j], fields[j]);
      EscapeLength(fields[j]);
      if j + 1 < |fields| {
        assert LineOf(fields[j..]) == text + "\t" + LineOf(fields[j + 1..]);
        assert before + (text + "\t" + LineOf(fields[j + 1..])) == line + LineOf(fields[j + 1..]);
      } else {
        assert fields[j..] == [fields[j]];
        assert before + text + "\t" == (before + text) + "\t";
      }
      j := j + 1;
    }
    assert fields[..j] == fields;
    line := line[..|line| - 1] + "\n";
  }

  method EscapeField(f: string) returns (text: string)
    ensures text == Escape(f)
  {
    hide Escape;
    EscapeStep(f, 0);
    assert f[0..] == f;
    text := "";
    var i := 0;
    while i < |f|
      invariant 0 <= i <= |f| && Escape(f) == text + Escape(f[i..])
    {
      EscapeStep(f, i);
      ghost var before, piece, rest := text, if f[i] == '\t' then "\\\t" else [f[i]], Escape(f[i + 1..]);
      if f[i] == '\t' {
        text := text + "\\";
      }
      text := text + [f[i]];
      assert text == before + piece;
      assert before + (piece + rest) == text + rest;
      i := i + 1;
    }
    EscapeStep(f, i);
  }

  lemma EscapeStep(f: string, i: nat)
    requires i <= |f|
    ensures Escape(f[i..]) ==
            if i == |f| then "" else (if f[i] == '\t' then "\\\t" else [f[i]]) + Escape(f[i + 1..])
  {
    if i < |f| {
      assert f[i..][1..] == f[i + 1..];
    }
  }

  function Total(fields: seq<string>): nat {
    if fields == [] then 0 else |fields[0]| + Total(fields[1..])
  }

  lemma {:induction false} TotalSnoc(fields: seq<string>, f: string)
    ensures Total(fields + [f]) == Total(fields) + |f|
  {
    if fields == [] {
      assert (fields + [f])[1..] == [];
    } else {
      assert (fields + [f])[1..] == fields[1..] + [f];
      TotalSnoc(fields[1..], f);
    }
  }

  lemma {:induction false} EscapeLength(s: string)
    ensures |Escape(s)| <= 2 * |s|
  {
    if s != "" {
      EscapeLength(s[1..]);
    }
  }

  /** `TXT_DB_read` for one line without its newline. */
  method ReadRow(line: string, num: nat) returns (r: Option<seq<string>>)
    requires num > 0
    ensures r == Parse(line, num)
  {
    var fields: seq<string> := [];
    var cur, f, esc := "", 0, false;
    ghost var whole := FieldsFrom(line, "");
    assert line[0..] == line;
    while f < |line|
      invariant 0 <= f <= |line| && |fields| < num
      invariant esc == EndsInBackslash(cur)
      invariant whole == fields + FieldsFrom(line[f..], cur)
    {
      assert line[f..][1..] == line[f + 1..];
      if line[f] == '\t' {
        if esc {
          cur := cur[..|cur| - 1];
        } else {
          fields := fields + [cur];
          cur := "";
          f := f + 1;
          assert whole == fields + FieldsFrom(line[f..], "");
          if |fields| >= num {
            TooMany(whole, fields, line[f..], num);
            return if f == |line| then Some(fields) else None;
          }
          continue;
        }
      }
      esc := line[f] == '\\';
      cur := cur + [line[f]];
      f := f + 1;
    }
    assert whole == fields + [cur];
    assert whole[..|whole|] == whole;
    r := if |fields| + 1 == num then Some(fields + [cur]) else None;
  }

  lemma TooMany(whole: seq<string>, fields: seq<string>, rest: string, num: nat)
    requires |fields| == num && num > 0 && whole == fields + FieldsFrom(rest, "")
    ensures |whole| == num || (|whole| == num + 1 && whole[num] == "") <==> rest == ""
    ensures whole[..num] == fields
  {
    if rest != "" {
      FirstNotEmpty(rest, "");
    }
  }

  /** A non-empty rest is more than one empty field. */
  lemma {:induction false} FirstNotEmpty(line: string, cur: string)
    requires line != "" || cur != ""
    ensures FieldsFrom(line, cur) != [""]
    decreases |line|
  {
    if line != "" {
      if line[0] == '\t' {
        if EndsInBackslash(cur) {
          FirstNotEmpty(line[1..], cur[..|cur| - 1] + "\t");
        }
      } else {
        FirstNotEmpty(line[1..], cur + [line[0]]);
      }
    }
  }

  /** Reading an escaped field gives the field back, up to its end. */
  lemma {:induction false} FieldsOfEscaped(s: string, rest: string, cur: string)
    ensures FieldsFrom(Escape(s) + rest, cur) == FieldsFrom(rest, cur + s)
    decreases |s|
  {
    hide FieldsFrom, Escape;
    EscapeStep(s, 0);
    assert s[0..] == s;
    if s == "" {
      assert Escape(s) + rest == rest && cur + s == cur;
    } else {
      var c := [s[0]];
      var tail := Escape(s[1..]) + rest;
      assert c + s[1..] == s;
      Assoc(cur, c, s[1..]);
      if s[0] == '\t' {
        Assoc("\\\t", Escape(s[1..]), rest);
        EscapedTab(tail, cur);
      } else {
        Assoc(c, Escape(s[1..]), rest);
        PlainChar(s[0], tail, cur);
      }
      FieldsOfEscaped(s[1..], rest, cur + c);
    }
  }

  lemma Assoc(a: string, b: string, c: string)
    ensures a + b + c == a + (b + c)
  {
  }

  lemma PlainChar(c: char, tail: string, cur: string)
    requires c != '\t'
    ensures FieldsFrom([c] + tail, cur) == FieldsFrom(tail, cur + [c])
  {
    assert ([c] + tail)[1..] == tail;
  }

  lemma EscapedTab(tail: string, cur: string)
    ensures FieldsFrom("\\\t" + tail, cur) == FieldsFrom(tail, cur + "\t")
  {
    var c := cur + ['\\'];
    assert "\\\t" + tail == ['\\'] + (['\t'] + tail);
    PlainChar('\\', ['\t'] + tail, cur);
    assert (['\t'] + tail)[1..] == tail && c[..|c| - 1] == cur;
  }

  /** No field but the last ends in a backslash. */
  ghost predicate Separable(fields: seq<string>) {
    forall i :: 0 <= i < |fields| - 1 ==> !EndsInBackslash(fields[i])
  }

  lemma SeparableStep(fields: seq<string>)
    requires |fields| > 1
    ensures Separable(fields) <==> !EndsInBackslash(fields[0]) && Separable(fields[1..])
  {
    hide EndsInBackslash;
    var rest := fields[1..];
    assert forall i :: 0 <= i < |rest| ==> rest[i] == fields[i + 1];
    if Separable(rest) && !EndsInBackslash(fields[0]) {
      forall i | 0 <= i < |fields| - 1 ensures !EndsInBackslash(fields[i]) {
        assert i > 0 ==> rest[i - 1] == fields[i];
      }
    }
  }

  /** A separator ends the field before it, or is swallowed by its backslash. */
  lemma Separator(more: string, c: string)
    ensures FieldsFrom("\t" + more, c) ==
            if EndsInBackslash(c) then FieldsFrom(more, c[..|c| - 1] + "\t") else [c] + FieldsFrom(more, "")
  {
    assert ("\t" + more)[1..] == more;
  }

  lemma LineStep(fields: seq<string>)
    requires |fields| > 1
    ensures LineOf(fields) == Escape(fields[0]) + ("\t" + LineOf(fields[1..]))
  {
    hide Escape;
  }

  lemma OneField(f: string, cur: string)
    ensures FieldsFrom(LineOf([f]), cur) == [cur + f]
  {
    hide Escape;
    assert Escape(f) + "" == Escape(f);
    FieldsOfEscaped(f, "", cur);
  }

  lemma EndOfBoth(cur: string, f: string)
    requires !EndsInBackslash(cur)
    ensures EndsInBackslash(cur + f) <==> EndsInBackslash(f)
    ensures EndsInBackslash(cur + f) ==> cur + f != ""
    ensures !EndsInBackslash("") && !EndsInBackslash((cur + f)[..if cur + f == "" then 0 else |cur + f| - 1] + "\t")
  {
  }

  /** Each field that ends in a backslash swallows the separator behind it. */
  lemma {:induction false} FieldsOfLine(fields: seq<string>, cur: string)
    requires fields != [] && !EndsInBackslash(cur)
    ensures |FieldsFrom(LineOf(fields), cur)| <= |fields|
    ensures |FieldsFrom(LineOf(fields), cur)| == |fields| <==> Separable(fields)
    ensures Separable(fields) ==> FieldsFrom(LineOf(fields), cur) == [cur + fields[0]] + fields[1..]
    decreases |fields|
  {
    var f := fields[0];
    if |fields| == 1 {
      assert fields == [f];
      OneField(f, cur);
    } else {
      hide Escape, FieldsFrom, LineOf, Separable, EndsInBackslash;
      var more, c := LineOf(fields[1..]), cur + f;
      LineStep(fields);
      FieldsOfEscaped(f, "\t" + more, cur);
      Separator(more, c);
      SeparableStep(fields);
      EndOfBoth(cur, f);
      if EndsInBackslash(f) {
        FieldsOfLine(fields[1..], c[..|c| - 1] + "\t");
      } else {
        FieldsOfLine(fields[1..], "");
        assert [fields[1]] + fields[1..][1..] == fields[1..];
        assert "" + fields[1] == fields[1];
      }
    }
  }

  /** A line without newlines gives its fields back exactly when no field but the last ends in a backslash. */
  lemma LineRoundTrip(fields: seq<string>)
    requires fields != []
    ensures Parse(LineOf(fields), |fields|) == Some(fields) <==> Separable(fields)
    ensures !Separable(fields) ==> Parse(LineOf(fields), |fields|) == None
  {
    hide LineOf, FieldsFrom, Separable;
    FieldsOfLine(fields, "");
    assert "" + fields[0] == fields[0];
    assert [fields[0]] + fields[1..] == fields && fields[..|fields|] == fields;
    EndOfBoth("", "");
  }

  /** Any other number of fields is refused, but for an empty one too many. */
  lemma WrongCount(fields: seq<string>, num: nat)
    requires fields != [] && Separable(fields) && num > 0
    ensures Parse(LineOf(fields), num) ==
            if |fields| == num then Some(fields)
            else if |fields| == num + 1 && fields[num] == "" then Some(fields[..num])
            else None
  {
    hide LineOf, FieldsFrom, Separable;
    EndOfBoth("", "");
    FieldsOfLine(fields, "");
    assert "" + fields[0] == fields[0];
    assert [fields[0]] + fields[1..] == fields && fields[..|fields|] == fields;
  }

  /** What escaping does: text without tabs stays as it is, and a backslash goes before each tab. */
  lemma {:induction false} EscapeIs(a: string, b: string)
    requires '\t' !in a
    ensures Escape(a) == a && Escape(a + "\t" + b) == a + "\\\t" + Escape(b)
  {
    hide Escape;
    var s := a + "\t" + b;
    EscapeStep(a, 0);
    EscapeStep(s, 0);
    assert a[0..] == a && s[0..] == s;
    if a == "" {
      assert s[1..] == b && s[0] == '\t';
    } else {
      EscapeIs(a[1..], b);
      assert s[1..] == a[1..] + "\t" + b && s[0] == a[0] != '\t';
      assert a == [a[0]] + a[1..];
      Assoc([a[0]], a[1..] + "\\\t", Escape(b));
      Assoc([a[0]], a[1..], "\\\t");
    }
  }

  /** The six fields of a row, in the order of the file. */
  function RowFields(r: Row): seq<string> {
    [r.tag, r.expDate, RevField(r), r.serial, r.file, r.name]
  }

  function FieldsRow(f: seq<string>): Row
    requires |f| == 6
  {
    Row(f[0], f[1], Some(f[2]), f[3], f[4], f[5])
  }

  /** The columns of the file: type, expiry date, revocation field, serial number, file name, subject. */
  lemma RowLine(r: Row)
    requires '\t' !in r.tag && '\t' !in r.expDate && '\t' !in RevField(r) && '\t' !in r.serial
    requires '\t' !in r.file && '\t' !in r.name
    ensures LineOf(RowFields(r)) ==
            r.tag + "\t" + (r.expDate + "\t" + (RevField(r) + "\t" + (r.serial + "\t" + (r.file + "\t" + r.name))))
  {
    hide Escape, RevField, LineOf;
    var f := RowFields(r);
    forall i | 0 <= i < 6 ensures Escape(f[i]) == f[i] {
      EscapeIs(f[i], "");
    }
    assert f[1..][1..] == f[2..] && f[2..][1..] == f[3..] && f[3..][1..] == f[4..] && f[4..][1..] == f[5..] == [f[5]];
    JoinStep(f);
    JoinStep(f[1..]);
    JoinStep(f[2..]);
    JoinStep(f[3..]);
    JoinStep(f[4..]);
    JoinStep(f[5..]);
  }

  lemma JoinStep(f: seq<string>)
    requires f != []
    ensures LineOf(f) == if |f| == 1 then Escape(f[0]) else Escape(f[0]) + "\t" + LineOf(f[1..])
  {
  }
}
