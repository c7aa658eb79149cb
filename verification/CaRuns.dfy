/** Whole runs of the CA over its index: any sequence of operations, and the life of the index file. */
module CaRuns {
  import opened Bytes
  import opened Revocation
  import opened Serials
  import opened CaDatabase
  import opened IndexFile
  import opened IndexStore

  datatype Op =
    | Issue(cert: Cert, approved: bool)
    | Revoke(cert: Cert, kind: RevType, arg: string, now: string)
    | Expire(now: string)

  /** The text of the current time has no comma. */
  ghost predicate OpOk(op: Op) {
    op.Revoke? ==> ',' !in op.now
  }

  /** What an operation is given can be written to the index file and read back. */
  ghost predicate OpPlain(op: Op) {
    match op
    case Issue(c, _) => Plain(c.notAfter) && OneLine(c.subject)
    case Revoke(c, _, arg, now) => Plain(c.notAfter) && OneLine(c.subject) && Plain(arg) && Plain(now)
    case Expire(_) => true
  }

  /** A revocation that took effect at a time which is not a UTCTime. */
  ghost predicate Late(lib: Library, op: Op, rc: int) {
    op.Revoke? && rc == 1 && op.kind != RevValid && !lib.utcTime(op.now)
  }

  ghost predicate NoneLate(lib: Library, ops: seq<Op>, results: seq<int>)
    requires |ops| == |results|
  {
    forall k :: 0 <= k < |ops| ==> !Late(lib, ops[k], results[k])
  }

  /** The rows that were added have readable expiry dates. */
  ghost predicate NewReadable(lib: Library, a: seq<Row>, b: seq<Row>) {
    forall i :: |a| <= i < |b| ==> lib.anyTime(b[i].expDate)
  }

  lemma ReadableTrans(lib: Library, a: seq<Row>, b: seq<Row>, c: seq<Row>)
    requires Evolves(a, b) && Evolves(b, c)
    ensures NewReadable(lib, a, c) <==> NewReadable(lib, a, b) && NewReadable(lib, b, c)
  {
    hide RowStep;
    forall i | 0 <= i < |b| ensures c[i].expDate == b[i].expDate {
      SameFacts(b[i], c[i]);
    }
  }

  lemma ReadableWith(lib: Library, a: seq<Row>, c: Cert, i: nat, field: Option<string>)
    ensures NewReadable(lib, a, a) && NewReadable(lib, a, Mark(a, i, field))
    ensures NewReadable(lib, a, a + [NewRow(c)]) <==> lib.anyTime(c.notAfter)
    ensures NewReadable(lib, a, Mark(a + [NewRow(c)], i, field)) <==> lib.anyTime(c.notAfter)
  {
    hide SerialText;
    assert (a + [NewRow(c)])[|a|] == NewRow(c);
    assert Mark(a + [NewRow(c)], i, field)[|a|].expDate == c.notAfter;
  }

  lemma NoneAdded(lib: Library, a: seq<Row>, b: seq<Row>)
    requires |a| == |b|
    ensures NewReadable(lib, a, b)
  {
  }

  lemma SameFacts(r: Row, s: Row)
    requires RowStep(r, s)
    ensures s.expDate == r.expDate && s.serial == r.serial
  {
  }

  /** Serial numbers as the CA writes them. */
  ghost predicate Written(r: Row) {
    exists n: int :: r.serial == SerialText(n)
  }

  ghost predicate AllWritten(rows: seq<Row>) {
    forall i :: 0 <= i < |rows| ==> Written(rows[i])
  }

  /** Whatever comes after the rows there were was written by the CA. */
  ghost predicate NewAreWritten(a: seq<Row>, b: seq<Row>) {
    forall i :: |a| <= i < |b| ==> Written(b[i])
  }

  lemma WrittenKept(a: seq<Row>, b: seq<Row>)
    requires Evolves(a, b) && NewAreWritten(a, b) && AllWritten(a)
    ensures AllWritten(b)
  {
    hide RowStep;
    forall i | 0 <= i < |b| ensures Written(b[i]) {
      if i < |a| {
        assert Written(a[i]);
        SameFacts(a[i], b[i]);
      }
    }
  }

  /** One operation of the run. */
  method Perform(db: CaDb, op: Op) returns (rc: int)
    requires db.Sound() && OpOk(op)
    modifies db`rows, db`bySerial, db`byName
    ensures db.Sound() && Evolves(old(db.rows), db.rows) && NewAreWritten(old(db.rows), db.rows)
    ensures AllLoad(db.lib, db.rows) <==>
              AllLoad(db.lib, old(db.rows)) && !Late(db.lib, op, rc) && NewReadable(db.lib, old(db.rows), db.rows)
    ensures OpPlain(op) && Saveable(old(db.rows)) ==> Saveable(db.rows)
    ensures Grows(old(db.bySerial), db.bySerial) && Grows(old(db.byName), db.byName)
  {
    hide Evolves, AllLoad, AllSound, Written, SerialText, Key, RevocationStr, Plain, OneLine, SaveableRow, Saveable,
         NewReadable, Grows;
    GrowsRefl(db.bySerial, db.byName);
    match op {
      case Issue(c, approved) =>
        GrowsBy(db.bySerial, Key(SerialText(c.serial)), |db.rows|);
        GrowsBy(db.byName, RowName(c), |db.rows|);
        WrittenRow(c);
        SaveableWith(db.rows, c);
        ReadableWith(db.lib, db.rows, c, 0, None);
        rc := db.Issue(c, approved);
      case Revoke(_, _, _, _) =>
        rc := PerformRevoke(db, op);
      case Expire(now) =>
        ghost var before := db.rows;
        rc := db.UpdateDb(now);
        SaveableSwept(db.lib, now, before, db.rows, Readable(db.lib, before));
        NoneAdded(db.lib, before, db.rows);
    }
  }

  method PerformRevoke(db: CaDb, op: Op) returns (rc: int)
    requires db.Sound() && OpOk(op) && op.Revoke?
    modifies db`rows, db`bySerial, db`byName
    ensures db.Sound() && Evolves(old(db.rows), db.rows) && NewAreWritten(old(db.rows), db.rows)
    ensures AllLoad(db.lib, db.rows) <==>
              AllLoad(db.lib, old(db.rows)) && !Late(db.lib, op, rc) && NewReadable(db.lib, old(db.rows), db.rows)
    ensures OpPlain(op) && Saveable(old(db.rows)) ==> Saveable(db.rows)
    ensures Grows(old(db.bySerial), db.bySerial) && Grows(old(db.byName), db.byName)
  {
    hide Evolves, AllLoad, AllSound, Written, SerialText, Key, RevocationStr, Plain, OneLine, SaveableRow, Saveable,
         NewReadable, Grows, CaDb.Indexed, Row.Status;
    var Revoke(c, kind, arg, now) := op;
    WrittenRow(c);
    SaveableWith(db.rows, c);
    if Plain(arg) && Plain(now) {
      FieldPlain(db.lib, kind, arg, now);
    }
    ghost var before, with, field := db.rows, db.WithCert(c), RevocationStr(db.lib, kind, arg, now);
    rc := db.Revoke(c, kind, arg, now);
    ghost var i := if db.Known(c) then db.bySerial[Key(SerialText(c.serial))] else 0;
    ReadableWith(db.lib, before, c, i, field);
    SaveableMark(with, i, field);
  }

  lemma WrittenRow(c: Cert)
    ensures forall k: string, f: Option<string> :: Written(NewRow(c).(tag := k, revDate := f))
    ensures Written(NewRow(c))
  {
    assert NewRow(c).serial == SerialText(c.serial);
  }

  lemma SerialPlain(n: int)
    ensures Plain(SerialText(n))
  {
    hide HexBytes;
    HexBytesShape(if n < 0 then -n else n);
    var s := SerialText(n);
    forall i | 0 <= i < |s| ensures s[i] != '\n' && s[i] != '\0' && s[i] != '\\' {
      var h := HexBytes(if n < 0 then -n else n);
      assert s[i] == '-' || s[i] in h;
    }
  }

  lemma SaveableWith(rows: seq<Row>, c: Cert)
    ensures Plain(c.notAfter) && OneLine(c.subject) && Saveable(rows) ==> Saveable(rows + [NewRow(c)])
  {
    hide SaveableRow, SerialText;
    SaveableRowIs(NewRow(c));
    SerialPlain(c.serial);
    assert Plain("unknown") && Plain("V");
    var t := rows + [NewRow(c)];
    assert t[|rows|] == NewRow(c) && forall i :: 0 <= i < |rows| ==> t[i] == rows[i];
  }

  lemma SaveableMark(rows: seq<Row>, i: nat, field: Option<string>)
    ensures Saveable(rows) && field.Some? && Plain(field.value) ==> Saveable(Mark(rows, i, field))
  {
    hide SaveableRow;
    if i < |rows| {
      SaveableRowIs(rows[i]);
      SaveableRowIs(rows[i].(tag := [REVOKED], revDate := field));
      assert Plain("R");
    }
  }

  lemma SaveableSwept(lib: Library, now: string, a: seq<Row>, b: seq<Row>, n: nat)
    requires |a| == |b| && Swept(lib, now, a, b, n)
    ensures Saveable(a) ==> Saveable(b)
  {
    hide SaveableRow;
    forall i | 0 <= i < |a| ensures SaveableRow(a[i]) ==> SaveableRow(b[i]) {
      SaveableRowIs(a[i]);
      SaveableRowIs(b[i]);
      assert Plain("E");
    }
  }

  lemma FieldPlain(lib: Library, kind: RevType, arg: string, now: string)
    requires Plain(arg) && Plain(now)
    ensures var f := RevocationStr(lib, kind, arg, now); f.Some? ==> Plain(f.value)
  {
    hide ReasonFrom, EndsInBackslash;
    var x := ExtraFor(lib, kind, arg);
    if x.Some? && x.value.reason.Some? {
      ReasonIsPlain(lib, kind, arg);
      PlainJoin(now, x.value.reason.value);
      if x.value.other.Some? {
        PlainJoin(now + ("," + x.value.reason.value), arg);
        assert Field(now, x.value) == now + ("," + x.value.reason.value) + ("," + arg);
      } else {
        assert Field(now, x.value) == now + ("," + x.value.reason.value);
      }
    } else if x.Some? {
      assert Field(now, x.value) == now;
    }
  }

  lemma PlainJoin(a: string, b: string)
    requires Plain(a) && Plain(b)
    ensures Plain(a + ("," + b))
  {
    var s := a + ("," + b);
    assert s[|s| - 1] == if b == "" then ',' else b[|b| - 1];
  }

  lemma ReasonIsPlain(lib: Library, kind: RevType, arg: string)
    requires ExtraFor(lib, kind, arg).Some? && ExtraFor(lib, kind, arg).value.reason.Some?
    ensures Plain(ExtraFor(lib, kind, arg).value.reason.value)
    ensures ExtraFor(lib, kind, arg).value.other.Some? ==> ExtraFor(lib, kind, arg).value.other.value == arg
  {
    hide ReasonFrom;
    var i := match kind
      case RevReason => ReasonFrom(arg, 0, CRL_REASONS)
      case RevHold => 8
      case RevKeyCompromise => 9
      case _ => 10;
    var r := ExtraFor(lib, kind, arg).value.reason.value;
    assert r == REASONS[i];
    ReasonsAreLetters(i, '\n');
    ReasonsAreLetters(i, '\0');
    ReasonsAreLetters(i, '\\');
    assert r[|r| - 1] in r;
  }

  /**
   * Any sequence of operations. The index stays sound: its keys are pairwise different. Revoked rows
   * never change, only valid rows become expired, and no row is lost or changes its serial number. An
   * index that passed the load check passes it again exactly when no revocation took effect at a time
   * which is not a UTCTime and every certificate that was added has a readable expiry date.
   */
  method RunOps(db: CaDb, ops: seq<Op>) returns (results: seq<int>)
    requires db.Sound() && forall k :: 0 <= k < |ops| ==> OpOk(ops[k])
    modifies db`rows, db`bySerial, db`byName
    ensures db.Sound() && |results| == |ops|
    ensures AllLoad(db.lib, db.rows) <==>
              && AllLoad(db.lib, old(db.rows))
              && NoneLate(db.lib, ops, results) && NewReadable(db.lib, old(db.rows), db.rows)
    ensures Outcomes(old(db.rows), db.rows)
    ensures Grows(old(db.bySerial), db.bySerial) && Grows(old(db.byName), db.byName)
    ensures forall i, j :: 0 <= i < j < |db.rows| ==> Apart(db.uniqueSubject, db.rows[i], db.rows[j])
    ensures AllWritten(old(db.rows)) ==> AllWritten(db.rows)
    ensures Saveable(old(db.rows)) && (forall k :: 0 <= k < |ops| ==> OpPlain(ops[k])) ==> Saveable(db.rows)
  {
    hide Evolves, AllLoad, AllSound, Written, OpOk, OpPlain, Late, Outcomes, Apart, Saveable, NewReadable, NoneLate,
         Grows;
    results := [];
    EvolvesRefl(db.rows);
    GrowsRefl(db.bySerial, db.byName);
    StartOfRun(db.lib, db.rows);
    var k := 0;
    while k < |ops|
      invariant 0 <= k <= |ops| && |results| == k && db.Sound()
      invariant Evolves(old(db.rows), db.rows)
      invariant Grows(old(db.bySerial), db.bySerial) && Grows(old(db.byName), db.byName)
      invariant AllWritten(old(db.rows)) ==> AllWritten(db.rows)
      invariant Saveable(old(db.rows)) && (forall i :: 0 <= i < |ops| ==> OpPlain(ops[i])) ==> Saveable(db.rows)
      invariant AllLoad(db.lib, db.rows) <==>
                  && AllLoad(db.lib, old(db.rows))
                  && NoneLate(db.lib, ops[..k], results) && NewReadable(db.lib, old(db.rows), db.rows)
    {
      ghost var before, serials, names := db.rows, db.bySerial, db.byName;
      var rc := Perform(db, ops[k]);
      GrowsTrans(old(db.bySerial), serials, db.bySerial);
      GrowsTrans(old(db.byName), names, db.byName);
      EvolvesTrans(old(db.rows), before, db.rows);
      ReadableTrans(db.lib, old(db.rows), before, db.rows);
      if AllWritten(before) {
        WrittenKept(before, db.rows);
      }
      LateMore(db.lib, ops, k, results, rc);
      results := results + [rc];
      k := k + 1;
    }
    assert ops[..k] == ops;
    RowOutcomes(old(db.rows), db.rows);
    AllApart(db);
  }

  lemma StartOfRun(lib: Library, rows: seq<Row>)
    ensures NoneLate(lib, [], []) && NewReadable(lib, rows, rows)
  {
  }

  lemma LateMore(lib: Library, ops: seq<Op>, k: nat, results: seq<int>, rc: int)
    requires k < |ops| && |results| == k
    ensures NoneLate(lib, ops[..k + 1], results + [rc]) <==> NoneLate(lib, ops[..k], results) && !Late(lib, ops[k], rc)
  {
    hide Late;
    var a, b := ops[..k + 1], results + [rc];
    assert a[k] == ops[k] && b[k] == rc;
    assert forall i :: 0 <= i < k ==> a[i] == ops[..k][i] && b[i] == results[i];
  }

  /** What a run may make of a row. */
  ghost predicate Outcome(r: Row, s: Row) {
    && s.serial == r.serial && s.name == r.name && s.expDate == r.expDate
    && (r.Status() == REVOKED ==> s == r)
    && (s.Status() == EXPIRED ==> r.Status() in {VALID, EXPIRED})
    && (s.Status() == VALID ==> s == r)
  }

  ghost predicate Outcomes(a: seq<Row>, b: seq<Row>) {
    |a| <= |b| && forall i :: 0 <= i < |a| ==> Outcome(a[i], b[i])
  }

  lemma RowOutcomes(a: seq<Row>, b: seq<Row>)
    requires Evolves(a, b)
    ensures Outcomes(a, b)
  {
    forall i | 0 <= i < |a| ensures Outcome(a[i], b[i]) {
      assert RowStep(a[i], b[i]);
    }
  }

  /** Two rows the indexes keep apart. */
  ghost predicate Apart(unique: bool, r: Row, s: Row) {
    && Key(r.serial) != Key(s.serial)
    && (unique && r.Status() == VALID && s.Status() == VALID ==> r.name != s.name)
  }

  lemma AllApart(db: CaDb)
    requires db.Indexed()
    ensures forall i, j :: 0 <= i < j < |db.rows| ==> Apart(db.uniqueSubject, db.rows[i], db.rows[j])
  {
    forall i, j | 0 <= i < j < |db.rows| ensures Apart(db.uniqueSubject, db.rows[i], db.rows[j]) {
      db.NoClash(i, j);
    }
  }

  /**
   * A certificate that was issued blocks its serial number and, where subjects are unique, its subject for
   * the rest of the run, whatever else is done: also after it has expired or was revoked.
   */
  method IssueAgain(db: CaDb, c: Cert, ops: seq<Op>, d: Cert, approved: bool)
    returns (rc: int, results: seq<int>, again: int)
    requires db.Sound() && forall k :: 0 <= k < |ops| ==> OpOk(ops[k])
    requires d.serial == c.serial || (db.uniqueSubject && d.subject == c.subject && c.subject != "")
    modifies db`rows, db`bySerial, db`byName
    ensures db.Sound() && (rc == 1 ==> again == -1)
  {
    hide Outcomes, AllLoad, AllSound, Key, SerialText, OpOk, OpPlain, NoneLate, NewReadable, Evolves, Apart, Saveable;
    hide AllWritten, RevocationStr;
    rc := db.Issue(c, true);
    results := RunOps(db, ops);
    again := db.Issue(d, approved);
  }

  /**
   * A certificate that was issued can be revoked, with any valid arguments, and the row that was added for
   * it then says so. Once revoked it stays revoked: a second attempt fails and changes nothing, whatever
   * else was done in between.
   */
  method IssueRevokeRevoke(db: CaDb, c: Cert, kind: RevType, arg: string, now: string, ops: seq<Op>,
                           kind2: RevType, arg2: string, now2: string)
    returns (rc: int, revoked: int, results: seq<int>, again: int)
    requires db.Sound() && ',' !in now && ',' !in now2 && forall k :: 0 <= k < |ops| ==> OpOk(ops[k])
    modifies db`rows, db`bySerial, db`byName
    ensures db.Sound()
    ensures rc == 1 ==> (revoked == 1 <==> kind != RevValid && RevocationStr(db.lib, kind, arg, now).Some?)
    ensures rc == 1 && revoked == 1 ==>
              var name := if c.subject == "" then SerialText(c.serial) else c.subject;
              && again == -1 && |db.rows| > old(|db.rows|)
              && db.rows[old(|db.rows|)] ==
                 Row("R", c.notAfter, RevocationStr(db.lib, kind, arg, now), SerialText(c.serial), "unknown", name)
  {
    hide AllLoad, AllSound, Key, SerialText, OpOk, OpPlain, NoneLate, NewReadable, Evolves, Apart, Saveable;
    hide AllWritten, RevocationStr;
    rc := db.Issue(c, true);
    ghost var i := old(|db.rows|);
    ghost var key := Key(SerialText(c.serial));
    revoked := db.Revoke(c, kind, arg, now);
    ghost var after := db.rows;
    results := RunOps(db, ops);
    if rc == 1 && revoked == 1 {
      assert after[i].Status() == 'R';
      assert Outcome(after[i], db.rows[i]);
      assert key in db.bySerial && db.bySerial[key] == i;
    }
    again := db.Revoke(c, kind2, arg2, now2);
  }

  /** Keys are texts: one number can stand in two rows of an index that loads, in upper and in lower case. */
  lemma SameNumberTwice(lib: Library, date: string) returns (r: Row, s: Row)
    requires lib.anyTime(date)
    ensures LoadOk(lib, r) && LoadOk(lib, s) && Apart(true, r, s)
    ensures HexValue(r.serial) == 10 && HexValue(s.serial) == 10
  {
    r, s := Row([VALID], date, None, "0A", "unknown", "a"), Row([VALID], date, None, "0a", "unknown", "b");
    assert "0A"[1..] == "A" && "0a"[1..] == "a";
    assert "0A"[..1] == "0" && "0a"[..1] == "0" && "0"[..0] == "";
    assert HexValue("0") == 0;
    assert Key("A") == "A" && Key("a") == "a";
    assert "A"[0] != "a"[0];
  }

  /** Revoking a foreign certificate with an unreadable expiry date succeeds and leaves an index that does not load. */
  method UnreadableRecorded(lib: Library, unique: bool, c: Cert, now: string) returns (db: CaDb, rc: int)
    requires !lib.anyTime(c.notAfter) && ',' !in now
    ensures fresh(db) && db.lib == lib && rc == 1 && |db.rows| == 1 && !AllLoad(lib, db.rows)
  {
    db := new CaDb(lib, unique);
    rc := db.Revoke(c, RevNone, "", now);
  }

  /**
   * The life of an index: loaded from any file, worked on, saved and loaded again by the next run. What
   * the first run leaves behind loads exactly when it is not empty and no operation spoiled it, and then
   * it is what the first run had. (The CA saves only after operations that succeeded; here it saves after
   * any.)
   */
  method Lifetime(lib: Library, unique: bool, s: string, ops: seq<Op>)
    returns (loaded: bool, results: seq<int>, again: bool, db: CaDb, next: CaDb, ghost start: seq<Row>)
    requires '\0' !in s && forall k :: 0 <= k < |ops| ==> OpOk(ops[k]) && OpPlain(ops[k])
    ensures fresh(db) && fresh(next) && db.lib == lib && db.uniqueSubject == unique
    ensures loaded <==> ReadFrom(s, "", BUFSIZE, 6).Some? && AllLoad(lib, start) && db.Distinct(start)
    ensures ReadFrom(s, "", BUFSIZE, 6).Some? ==> ReadFrom(s, "", BUFSIZE, 6) == Some(AllFields(start))
    ensures loaded ==> db.Sound() && |results| == |ops| && Outcomes(start, db.rows)
    ensures loaded ==>
              (again <==> db.rows != [] && NoneLate(lib, ops, results) && NewReadable(lib, start, db.rows))
    ensures loaded && again ==> next.Valid() && next.rows == Reread(db.rows)
  {
    hide ReadFrom, AllLoad, AllSound, OpOk, OpPlain, Saveable, SaveableRow, Reread, NoneLate, NewReadable, Outcomes;
    hide Apart, AllWritten, AllFields, AllRows, RowFields, Storable, Free;
    db := new CaDb(lib, unique);
    next := new CaDb(lib, unique);
    loaded, results, again, start := false, [], false, [];
    var read := ReadIndex(s, 6);
    if read == None {
      return;
    }
    StartRows(s);
    var rows := AllRows(read.value);
    start := rows;
    loaded := db.Load(rows);
    if !loaded {
      return;
    }
    results := RunOps(db, ops);
    again, next := SaveAndLoad(db);
  }

  /** The rows of a file are the fields that were read, and can be saved again. */
  lemma StartRows(s: string)
    requires '\0' !in s && ReadFrom(s, "", BUFSIZE, 6).Some?
    ensures var f := ReadFrom(s, "", BUFSIZE, 6).value;
            && (forall i :: 0 <= i < |f| ==> |f[i]| == 6)
            && AllFields(AllRows(f)) == f && Saveable(AllRows(f)) && |AllRows(f)| == |f|
            && forall i :: 0 <= i < |f| ==> '\0' !in RevField(AllRows(f)[i])
  {
    hide ReadFrom, Storable;
    ReadStorable(s, "", BUFSIZE, 6);
    ReadFree('\0', s, "", BUFSIZE, 6);
    var f := ReadFrom(s, "", BUFSIZE, 6).value;
    var rows := AllRows(f);
    forall i | 0 <= i < |f| ensures RowFields(rows[i]) == f[i] && '\0' !in RevField(rows[i]) {
      assert f[i][2] == RevField(rows[i]);
    }
    assert AllFields(rows) == f;
  }
}
