/** The CA's index of issued certificates: loading, issuing, revoking and expiring. */
module CaDatabase {
  import opened Bytes
  import opened Revocation
  import opened Serials

  /** One row of the index file. `tag` is the type field; a null revocation date is `None`. */
  datatype Row = Row(tag: string, expDate: string, revDate: Option<string>, serial: string, file: string, name: string)
  {
    /** The first character of the type, the only one that is looked at; the terminator of an empty one. */
    function Status(): char {
      if tag == "" then '\0' else tag[0]
    }
  }

  const VALID := 'V'
  const EXPIRED := 'E'
  const REVOKED := 'R'

  /** The revocation field as it stands in the index file, where null and empty are written alike. */
  function RevField(r: Row): string {
    if r.revDate.Some? then r.revDate.value else ""
  }

  /** The part of the load check that every operation keeps. */
  ghost predicate SoundRow(r: Row) {
    (r.Status() != REVOKED ==> RevField(r) == "") && SerialOk(r.serial)
  }

  /** The check every row has to pass when the index is loaded: also, dates that can be read. */
  ghost predicate LoadOk(lib: Library, r: Row) {
    && SoundRow(r)
    && lib.anyTime(r.expDate)
    && (r.Status() == REVOKED ==> Unpack(lib, RevField(r)).Some?)
  }

  ghost predicate AllSound(rows: seq<Row>) {
    forall i :: 0 <= i < |rows| ==> SoundRow(rows[i])
  }

  ghost predicate AllLoad(lib: Library, rows: seq<Row>) {
    forall i :: 0 <= i < |rows| ==> LoadOk(lib, rows[i])
  }

  /** The facts of a certificate the index records. */
  datatype Cert = Cert(subject: string, serial: int, notAfter: string)

  /** An empty subject is replaced by the serial number. */
  function RowName(c: Cert): string {
    if c.subject == "" then SerialText(c.serial) else c.subject
  }

  function NewRow(c: Cert): Row {
    Row([VALID], c.notAfter, None, SerialText(c.serial), "unknown", RowName(c))
  }

  /** The rows with one of them revoked. */
  function Mark(rows: seq<Row>, i: nat, field: Option<string>): seq<Row> {
    if i < |rows| then rows[i := rows[i].(tag := [REVOKED], revDate := field)] else rows
  }

  /** The row of a new certificate passes the load check exactly when its expiry date can be read. */
  lemma NewRowOk(lib: Library, c: Cert)
    ensures SoundRow(NewRow(c)) && (LoadOk(lib, NewRow(c)) <==> lib.anyTime(c.notAfter)) && NewRow(c).Status() == 'V'
  {
    SerialTextOk(c.serial);
  }

  /** A revoked row passes exactly when it did before and the date is a UTCTime, whatever the valid arguments. */
  lemma RevokedRowOk(lib: Library, r: Row, kind: RevType, arg: string, now: string)
    requires SoundRow(r) && r.Status() != REVOKED && RevocationStr(lib, kind, arg, now).Some? && ',' !in now
    ensures var s := r.(tag := [REVOKED], revDate := RevocationStr(lib, kind, arg, now));
            SoundRow(s) && (LoadOk(lib, s) <==> LoadOk(lib, r) && lib.utcTime(now))
  {
    hide Unpack, RevocationStr, SerialOk;
    RevocationRoundTrip(lib, kind, arg, now);
  }

  /** One row more or one row changed decides over the check of all. */
  lemma AllWith(lib: Library, rows: seq<Row>, r: Row)
    ensures AllSound(rows + [r]) <==> AllSound(rows) && SoundRow(r)
    ensures AllLoad(lib, rows + [r]) <==> AllLoad(lib, rows) && LoadOk(lib, r)
  {
    hide LoadOk, SoundRow;
    var t := rows + [r];
    assert t[|rows|] == r && forall i :: 0 <= i < |rows| ==> t[i] == rows[i];
  }

  lemma AllChanged(lib: Library, rows: seq<Row>, i: nat, r: Row)
    requires i < |rows| && AllSound(rows) && SoundRow(r)
    requires LoadOk(lib, r) ==> LoadOk(lib, rows[i])
    ensures AllSound(rows[i := r])
    ensures AllLoad(lib, rows[i := r]) <==> AllLoad(lib, rows) && LoadOk(lib, r)
    ensures AllLoad(lib, rows) ==> LoadOk(lib, rows[i])
  {
    hide SoundRow, LoadOk;
    var t := rows[i := r];
    assert t[i] == r && forall k :: 0 <= k < |rows| && k != i ==> t[k] == rows[k];
    if AllLoad(lib, t) {
      forall k | 0 <= k < |rows| ensures LoadOk(lib, rows[k]) {
        assert k != i ==> LoadOk(lib, t[k]);
      }
    }
  }

  /** What may become of a row: nothing, expiry of a valid one, revocation of one that is not revoked. */
  ghost predicate RowStep(r: Row, s: Row) {
    || s == r
    || (r.Status() == VALID && s == r.(tag := [EXPIRED]))
    || (r.Status() != REVOKED && s == r.(tag := [REVOKED], revDate := s.revDate))
  }

  /** Rows are only added at the end, and the others change in place by permitted steps. */
  ghost predicate Evolves(a: seq<Row>, b: seq<Row>) {
    |a| <= |b| && forall i :: 0 <= i < |a| ==> RowStep(a[i], b[i])
  }

  lemma EvolvesTrans(a: seq<Row>, b: seq<Row>, c: seq<Row>)
    requires Evolves(a, b) && Evolves(b, c)
    ensures Evolves(a, c)
  {
    hide RowStep;
    forall i | 0 <= i < |a| ensures RowStep(a[i], c[i]) {
      RowStepTrans(a[i], b[i], c[i]);
    }
  }

  lemma RowStepTrans(a: Row, b: Row, c: Row)
    requires RowStep(a, b) && RowStep(b, c)
    ensures RowStep(a, c)
  {
  }

  lemma EvolvesRefl(a: seq<Row>)
    ensures Evolves(a, a)
  {
  }

  /** What `do_updatedb` makes of a row at time `now`. */
  function Expire(lib: Library, now: string, r: Row): Row {
    if r.Status() == VALID && lib.past(r.expDate, now) then r.(tag := [EXPIRED]) else r
  }

  function Changed(lib: Library, now: string, rows: seq<Row>): nat {
    if rows == [] then 0
    else
      var n := |rows| - 1;
      Changed(lib, now, rows[..n]) + if Expire(lib, now, rows[n]) != rows[n] then 1 else 0
  }

  /** The positions of the rows that expire. */
  ghost function Due(lib: Library, now: string, rows: seq<Row>): set<nat> {
    set i: nat | i < |rows| && rows[i].tag != "" && rows[i].tag[0] == 'V' && lib.past(rows[i].expDate, now)
  }

  lemma {:induction false} ChangedCounts(lib: Library, now: string, rows: seq<Row>)
    ensures Changed(lib, now, rows) == |Due(lib, now, rows)|
  {
    if rows != [] {
      var n := |rows| - 1;
      ChangedCounts(lib, now, rows[..n]);
      assert Due(lib, now, rows) - {n} == Due(lib, now, rows[..n]);
    } else {
      assert Due(lib, now, rows) == {};
    }
  }

  lemma ExpireOk(lib: Library, now: string, r: Row)
    requires SoundRow(r)
    ensures SoundRow(Expire(lib, now, r)) && RowStep(r, Expire(lib, now, r))
    ensures LoadOk(lib, Expire(lib, now, r)) <==> LoadOk(lib, r)
  {
  }

  /** A row at which `do_updatedb` gives up. */
  predicate Unreadable(lib: Library, r: Row) { r.Status() == VALID && !lib.anyTime(r.expDate) }

  /** How many rows it gets through. */
  function Readable(lib: Library, rows: seq<Row>): (n: nat)
    ensures n <= |rows| && (n < |rows| ==> Unreadable(lib, rows[n]))
    ensures forall i :: 0 <= i < n ==> !Unreadable(lib, rows[i])
  {
    if rows == [] || Unreadable(lib, rows[0]) then 0
    else
      var n := Readable(lib, rows[1..]);
      assert forall i :: 0 < i < n + 1 ==> rows[i] == rows[1..][i - 1];
      n + 1
  }

  /** The loop of `ca_main` over the rows it has loaded. */
  method LoadCheck(lib: Library, rows: seq<Row>) returns (ok: bool)
    requires forall i :: 0 <= i < |rows| ==> '\0' !in RevField(rows[i])
    ensures ok <==> AllLoad(lib, rows)
  {
    hide Unpack, SerialOk;
    var i := 0;
    while i < |rows|
      invariant 0 <= i <= |rows|
      invariant forall k :: 0 <= k < i ==> LoadOk(lib, rows[k])
    {
      var r := rows[i];
      if r.Status() != REVOKED && RevField(r) != "" {
        return false;
      }
      if r.Status() == REVOKED {
        var info := UnpackRevinfo(lib, RevField(r));
        if info == None {
          return false;
        }
      }
      if !lib.anyTime(r.expDate) {
        return false;
      }
      var good := CheckSerial(r.serial);
      if !good {
        return false;
      }
      i := i + 1;
    }
    ok := true;
  }

  method CheckSerial(serial: string) returns (ok: bool)
    ensures ok == SerialOk(serial)
  {
    var p, j := 0, |serial|;
    if |serial| > 0 && serial[0] == '-' {
      p, j := 1, j - 1;
    }
    ghost var digits := serial[p..];
    assert digits == Digits(serial);
    if j % 2 == 1 || j < 2 {
      return false;
    }
    ghost var start := p;
    while p < |serial|
      invariant start <= p <= |serial|
      invariant forall k :: 0 <= k < p - start ==> HexDigit(digits[k])
    {
      assert digits[p - start] == serial[p];
      if !HexDigit(serial[p]) {
        return false;
      }
      p := p + 1;
    }
    ok := true;
  }

  /**
   * The index in memory. The rows are changed in place; `bySerial` and `byName` stand for the two hash
   * tables, the second in use only with `unique_subject` and holding the rows that were valid when
   * they entered it.
   */
  class CaDb {
    const lib: Library
    const uniqueSubject: bool
    var rows: seq<Row>
    var bySerial: map<string, nat>
    var byName: map<string, nat>

    ghost predicate Indexed()
      reads this
    {
      && (forall i :: 0 <= i < |rows| ==> Key(rows[i].serial) in bySerial && bySerial[Key(rows[i].serial)] == i)
      && (forall k :: k in bySerial ==> bySerial[k] < |rows| && Key(rows[bySerial[k]].serial) == k)
      && (uniqueSubject ==>
            && (forall i :: 0 <= i < |rows| && rows[i].Status() == VALID ==>
                  rows[i].name in byName && byName[rows[i].name] == i)
            && (forall n :: n in byName ==> byName[n] < |rows| && rows[byName[n]].name == n))
    }

    /** What every operation keeps. */
    ghost predicate Sound()
      reads this
    {
      Indexed() && AllSound(rows)
    }

    /** The index would load again. */
    ghost predicate Valid()
      reads this
    {
      Sound() && AllLoad(lib, rows)
    }

    constructor (lib: Library, uniqueSubject: bool)
      ensures Valid() && rows == [] && bySerial == map[] && byName == map[]
      ensures this.lib == lib && this.uniqueSubject == uniqueSubject
    {
      this.lib, this.uniqueSubject := lib, uniqueSubject;
      rows, bySerial, byName := [], map[], map[];
    }

    /** The keys of serial numbers are pairwise different, and so are valid subjects when they have to be. */
    lemma NoClash(i: nat, j: nat)
      requires Indexed() && i < j < |rows|
      ensures Key(rows[i].serial) != Key(rows[j].serial)
      ensures uniqueSubject && rows[i].Status() == VALID && rows[j].Status() == VALID ==> rows[i].name != rows[j].name
    {
    }

    /** So no number is there twice among the serial numbers the CA wrote itself. */
    lemma NumbersDistinct(i: nat, j: nat, a: int, b: int)
      requires Indexed() && i < j < |rows| && rows[i].serial == SerialText(a) && rows[j].serial == SerialText(b)
      ensures a != b
    {
      NoClash(i, j);
      KeysDistinct(a, b);
    }

    /** `TXT_DB_insert`: the row is added unless an index already has its key. */
    method Insert(row: Row) returns (ok: bool)
      requires Sound() && SoundRow(row)
      modifies this`rows, this`bySerial, this`byName
      ensures Sound()
      ensures ok <==> Key(row.serial) !in old(bySerial)
                      && (uniqueSubject && row.Status() == VALID ==> row.name !in old(byName))
      ensures ok ==> rows == old(rows) + [row] && bySerial == old(bySerial)[Key(row.serial) := old(|rows|)]
      ensures ok ==>
                byName == if uniqueSubject && row.Status() == VALID then old(byName)[row.name := old(|rows|)]
                          else old(byName)
      ensures !ok ==> rows == old(rows) && bySerial == old(bySerial) && byName == old(byName)
      ensures Evolves(old(rows), rows)
    {
      hide SoundRow, LoadOk, Key, SerialOk, Row.Status;
      if Key(row.serial) in bySerial {
        return false;
      }
      if uniqueSubject && row.Status() == VALID && row.name in byName {
        return false;
      }
      bySerial := bySerial[Key(row.serial) := |rows|];
      if uniqueSubject && row.Status() == VALID {
        byName := byName[row.name := |rows|];
      }
      rows := rows + [row];
      ok := true;
    }

    /** Nothing in the index stands in the way of this serial number and, if it has to be unique, this name. */
    ghost predicate Free(serial: int, name: string)
      reads this
    {
      Key(SerialText(serial)) !in bySerial && (uniqueSubject ==> name !in byName)
    }

    /**
     * The end of `do_body`: a certificate is recorded when nothing clashes and the operator agrees.
     * The result is 1, 0 when the operator declines, -1 on a clash.
     */
    method Issue(c: Cert, approved: bool) returns (rc: int)
      requires Sound()
      modifies this`rows, this`bySerial, this`byName
      ensures Sound() && Evolves(old(rows), rows)
      ensures AllLoad(lib, rows) <==> AllLoad(lib, old(rows)) && (rc == 1 ==> lib.anyTime(c.notAfter))
      ensures rc == 1 <==> approved && old(Free(c.serial, if c.subject == "" then SerialText(c.serial) else c.subject))
      ensures rc == 0 <==> !approved && old(Free(c.serial, if c.subject == "" then SerialText(c.serial) else c.subject))
      ensures rc == 1 || rc == 0 || rc == -1
      ensures rows == if rc == 1 then old(rows) + [NewRow(c)] else old(rows)
      ensures rc == 1 ==>
                var name := if c.subject == "" then SerialText(c.serial) else c.subject;
                && rows[old(|rows|)] == Row("V", c.notAfter, None, SerialText(c.serial), "unknown", name)
                && bySerial == old(bySerial)[Key(SerialText(c.serial)) := old(|rows|)]
                && byName == if uniqueSubject then old(byName)[name := old(|rows|)] else old(byName)
      ensures rc != 1 ==> bySerial == old(bySerial) && byName == old(byName)
    {
      hide SoundRow, LoadOk, Key, SerialText, SerialOk, AllSound, AllLoad;
      NewRowOk(lib, c);
      AllWith(lib, rows, NewRow(c));
      EvolvesRefl(rows);
      if uniqueSubject && RowName(c) in byName {
        return -1;
      }
      if Key(SerialText(c.serial)) in bySerial {
        return -1;
      }
      if !approved {
        return 0;
      }
      var ok := Insert(NewRow(c));
      rc := if ok then 1 else -1;
    }

    ghost predicate Known(c: Cert)
      reads this
    {
      Key(SerialText(c.serial)) in bySerial
    }

    /** What decides over a revocation: the row of the certificate, or the room for a new one. */
    ghost predicate Revocable(c: Cert, kind: RevType, field: Option<string>)
      reads this
    {
      var key := Key(SerialText(c.serial));
      if key in bySerial then
        bySerial[key] < |rows| && var r := rows[bySerial[key]];
        && r.name == (if c.subject == "" then SerialText(c.serial) else c.subject)
        && kind != RevValid && r.Status() != 'R' && field.Some?
      else
        && Free(c.serial, if c.subject == "" then SerialText(c.serial) else c.subject)
        && (kind == RevValid || field.Some?)
    }

    /** The rows with the certificate among them: added at the end when the index does not know it. */
    ghost function WithCert(c: Cert): seq<Row>
      reads this
    {
      if Known(c) || (uniqueSubject && RowName(c) in byName) then rows else rows + [NewRow(c)]
    }

    /** The rows are those of before, but for the certificate's own, which is revoked. */
    ghost predicate Marked(c: Cert, before: seq<Row>, field: Option<string>)
      reads this
    {
      var key := Key(SerialText(c.serial));
      key in bySerial && rows == Mark(before, bySerial[key], field)
    }

    /**
     * `do_revoke`. A certificate the index does not know is first added and then looked up again, which
     * ends after one round. The row of a revoked certificate carries the field made of the arguments,
     * no other row changes. An index that passed the load check still does exactly when that field
     * starts with a UTCTime and the expiry date of a certificate that was added can be read: the date is
     * copied from the certificate as it is.
     */
    method Revoke(c: Cert, kind: RevType, arg: string, now: string) returns (rc: int)
      requires Sound() && ',' !in now
      modifies this`rows, this`bySerial, this`byName
      ensures Sound() && Evolves(old(rows), rows) && (rc == 1 || rc == -1)
      ensures AllLoad(lib, rows) <==>
                && AllLoad(lib, old(rows))
                && (rc == 1 && kind != RevValid ==> lib.utcTime(now))
                && (|rows| > old(|rows|) ==> lib.anyTime(c.notAfter))
      ensures rc == 1 <==> old(Revocable(c, kind, RevocationStr(lib, kind, arg, now)))
      ensures rc == 1 && kind != RevValid ==> Marked(c, old(WithCert(c)), RevocationStr(lib, kind, arg, now))
      ensures rc == -1 || kind == RevValid ==> rows == old(WithCert(c))
      ensures rc == 1 && kind != RevValid ==>
                var key := Key(SerialText(c.serial));
                && key in bySerial && bySerial[key] < |rows|
                && rows[bySerial[key]].tag == "R" && rows[bySerial[key]].revDate == RevocationStr(lib, kind, arg, now)
      ensures rc == 1 && !old(Known(c)) ==>
                var field := if kind == RevValid then None else RevocationStr(lib, kind, arg, now);
                var name := if c.subject == "" then SerialText(c.serial) else c.subject;
                && |rows| == old(|rows|) + 1
                && rows[old(|rows|)] ==
                   Row(if kind == RevValid then "V" else "R", c.notAfter, field, SerialText(c.serial), "unknown", name)
      ensures Grows(old(bySerial), bySerial) && Grows(old(byName), byName)
      decreases !Known(c)
    {
      hide SoundRow, LoadOk, Key, SerialText, SerialOk, RevocationStr, Evolves, AllSound, AllLoad, Indexed, Row.Status;
      hide Grows;
      EvolvesRefl(rows);
      GrowsRefl(bySerial, byName);
      var key := Key(SerialText(c.serial));
      if key !in bySerial {
        NewRowOk(lib, c);
        AllWith(lib, rows, NewRow(c));
        GrowsBy(bySerial, key, |rows|);
        GrowsBy(byName, NewRow(c).name, |rows|);
        var ok := Insert(NewRow(c));
        if !ok {
          return -1;
        }
        if kind == RevValid {
          return 1;
        }
        ghost var before, serials, names := rows, bySerial, byName;
        rc := Revoke(c, kind, arg, now);
        EvolvesTrans(old(rows), before, rows);
        GrowsTrans(old(bySerial), serials, bySerial);
        GrowsTrans(old(byName), names, byName);
        GrowsAt(serials, bySerial, key);
      } else {
        Found(key);
        rc := RevokeRow(bySerial[key], c, kind, arg, now);
      }
    }

    lemma Found(key: string)
      requires Indexed() && key in bySerial
      ensures bySerial[key] < |rows|
    {
    }

    /** The second half of `do_revoke`, for the row the index has. */
    method RevokeRow(i: nat, c: Cert, kind: RevType, arg: string, now: string) returns (rc: int)
      requires Sound() && i < |rows| && ',' !in now
      modifies this`rows
      ensures Sound() && Evolves(old(rows), rows) && (rc == 1 || rc == -1)
      ensures rc == 1 <==> var r := old(rows)[i];
                           && r.name == (if c.subject == "" then SerialText(c.serial) else c.subject)
                           && kind != RevValid && r.Status() != 'R' && RevocationStr(lib, kind, arg, now).Some?
      ensures rows == if rc == 1 then Mark(old(rows), i, RevocationStr(lib, kind, arg, now)) else old(rows)
      ensures rc == 1 ==> rows[i] == old(rows)[i].(tag := "R", revDate := RevocationStr(lib, kind, arg, now))
      ensures AllLoad(lib, rows) <==> AllLoad(lib, old(rows)) && (rc == 1 ==> lib.utcTime(now))
    {
      hide SoundRow, LoadOk, Key, SerialText, SerialOk, RevocationStr, Evolves, AllLoad;
      EvolvesRefl(rows);
      if rows[i].name != RowName(c) || kind == RevValid || rows[i].Status() == REVOKED {
        return -1;
      }
      var field := MakeRevocationStr(lib, kind, arg, now);
      if field == None {
        return -1;
      }
      RevokedRowOk(lib, rows[i], kind, arg, now);
      AllChanged(lib, rows, i, rows[i].(tag := [REVOKED], revDate := field));
      MarkEvolves(rows, i, field);
      rows := rows[i := rows[i].(tag := [REVOKED], revDate := field)];
      rc := 1;
    }

    /** One round of the loop of `do_updatedb`; an unreadable date is an error. */
    method ExpireRow(i: nat, now: string) returns (ok: bool, changed: bool)
      requires Sound() && i < |rows|
      modifies this`rows
      ensures ok <==> !Unreadable(lib, old(rows)[i])
      ensures Sound() && rows == if ok then old(rows)[i := Expire(lib, now, old(rows)[i])] else old(rows)
      ensures changed <==> ok && Expire(lib, now, old(rows)[i]) != old(rows)[i]
    {
      hide SoundRow, LoadOk, Key, SerialOk;
      ok, changed := true, false;
      ExpireOk(lib, now, rows[i]);
      if rows[i].Status() == VALID {
        if !lib.anyTime(rows[i].expDate) {
          return false, false;
        }
        if lib.past(rows[i].expDate, now) {
          rows := rows[i := rows[i].(tag := [EXPIRED])];
          changed := true;
        }
      }
    }

    /**
     * `do_updatedb`: the valid rows whose time is past become expired, and the result counts them. At the
     * first valid row with an unreadable date it gives up with -1, the rows before it done.
     */
    method UpdateDb(now: string) returns (count: int)
      requires Sound()
      modifies this`rows
      ensures Sound() && Evolves(old(rows), rows) && (AllLoad(lib, rows) <==> AllLoad(lib, old(rows)))
      ensures |rows| == old(|rows|) && Swept(lib, now, old(rows), rows, Readable(lib, old(rows)))
      ensures forall i :: 0 <= i < |rows| ==>
                var r := old(rows)[i];
                rows[i] == if i < Readable(lib, old(rows)) && r.tag != "" && r.tag[0] == 'V' && lib.past(r.expDate, now)
                           then r.(tag := "E") else r
      ensures count == if Readable(lib, old(rows)) == old(|rows|) then |Due(lib, now, old(rows))| else -1
    {
      hide SoundRow, LoadOk, Key, SerialOk, RowStep, Expire, Indexed, Unreadable, Due;
      count := 0;
      ghost var before := rows;
      var i := 0;
      while i < |rows|
        invariant 0 <= i <= |rows| == |before| && Sound()
        invariant i <= Readable(lib, before) && Swept(lib, now, before, rows, i)
        invariant count == Changed(lib, now, before[..i])
      {
        assert before[..i + 1][..i] == before[..i];
        var ok, changed := ExpireRow(i, now);
        if !ok {
          SweptOk(lib, now, before, rows, i);
          SweptMeans(lib, now, before, rows, i);
          return -1;
        }
        if changed {
          count := count + 1;
        }
        i := i + 1;
      }
      assert before[..i] == before;
      SweptOk(lib, now, before, rows, i);
      SweptMeans(lib, now, before, rows, i);
      ChangedCounts(lib, now, before);
    }

    /** The keys the two indexes must keep apart. */
    ghost predicate Distinct(s: seq<Row>) {
      && (forall i, j :: 0 <= i < j < |s| ==> Key(s[i].serial) != Key(s[j].serial))
      && (uniqueSubject ==>
            forall i, j :: 0 <= i < j < |s| && s[i].Status() == VALID && s[j].Status() == VALID ==>
              s[i].name != s[j].name)
    }

    /** Loading, as `ca_main` does it: the check of every row, then the indexes, which must not clash. */
    method Load(loaded: seq<Row>) returns (ok: bool)
      requires rows == [] && bySerial == map[] && byName == map[]
      requires forall i :: 0 <= i < |loaded| ==> '\0' !in RevField(loaded[i])
      modifies this`rows, this`bySerial, this`byName
      ensures ok <==> AllLoad(lib, loaded) && Distinct(loaded)
      ensures ok ==> Valid() && rows == loaded
    {
      hide LoadOk, SoundRow, Key, SerialOk, Evolves, Row.Status;
      ok := LoadCheck(lib, loaded);
      if !ok {
        return;
      }
      var i := 0;
      while i < |loaded|
        invariant 0 <= i <= |loaded| && rows == loaded[..i] && Sound() && NamesAreValid()
        invariant Distinct(loaded[..i])
      {
        ghost var s := loaded[..i];
        assert loaded[..i + 1] == s + [loaded[i]];
        LoadIsSound(lib, loaded[i]);
        ok := Insert(loaded[i]);
        if !ok {
          ClashFound(loaded, i);
          return;
        }
        i := i + 1;
      }
      assert loaded[..i] == loaded;
    }

    /** While loading, the name index holds valid rows only. */
    ghost predicate NamesAreValid()
      reads this
    {
      uniqueSubject ==> forall n :: n in byName ==> byName[n] < |rows| && rows[byName[n]].Status() == VALID
    }

    lemma ClashFound(loaded: seq<Row>, i: nat)
      requires i < |loaded| && rows == loaded[..i] && Indexed() && NamesAreValid()
      requires Key(loaded[i].serial) in bySerial
               || (uniqueSubject && loaded[i].Status() == VALID && loaded[i].name in byName)
      ensures !Distinct(loaded)
    {
      hide Key;
      if Key(loaded[i].serial) in bySerial {
        var k := bySerial[Key(loaded[i].serial)];
        assert rows[k] == loaded[k];
      } else {
        var k := byName[loaded[i].name];
        assert rows[k] == loaded[k];
      }
    }
  }

  /** Nothing leaves an index. */
  ghost predicate Grows(a: map<string, nat>, b: map<string, nat>) {
    forall k :: k in a ==> k in b && b[k] == a[k]
  }

  lemma GrowsRefl(a: map<string, nat>, b: map<string, nat>)
    ensures Grows(a, a) && Grows(b, b)
  {
  }

  lemma GrowsBy(a: map<string, nat>, k: string, i: nat)
    ensures k !in a ==> Grows(a, a[k := i])
  {
  }

  lemma GrowsAt(a: map<string, nat>, b: map<string, nat>, k: string)
    requires Grows(a, b) && k in a
    ensures k in b && b[k] == a[k]
  {
  }

  lemma GrowsTrans(a: map<string, nat>, b: map<string, nat>, c: map<string, nat>)
    requires Grows(a, b) && Grows(b, c)
    ensures Grows(a, c)
  {
  }

  lemma LoadIsSound(lib: Library, r: Row)
    requires LoadOk(lib, r)
    ensures SoundRow(r)
  {
  }

  /** The first `n` rows were looked at, the others are as they were. */
  ghost predicate Swept(lib: Library, now: string, a: seq<Row>, b: seq<Row>, n: nat)
    requires |a| == |b|
  {
    forall i :: 0 <= i < |a| ==> b[i] == if i < n then Expire(lib, now, a[i]) else a[i]
  }

  lemma SweptMeans(lib: Library, now: string, a: seq<Row>, b: seq<Row>, n: nat)
    requires |a| == |b| && Swept(lib, now, a, b, n)
    ensures forall i :: 0 <= i < |a| ==>
              b[i] == if i < n && a[i].tag != "" && a[i].tag[0] == 'V' && lib.past(a[i].expDate, now)
                      then a[i].(tag := "E") else a[i]
  {
  }

  lemma SweptOk(lib: Library, now: string, a: seq<Row>, b: seq<Row>, n: nat)
    requires |a| == |b| && Swept(lib, now, a, b, n) && AllSound(a)
    ensures Evolves(a, b) && (AllLoad(lib, b) <==> AllLoad(lib, a))
  {
    hide SoundRow, LoadOk, RowStep, Expire;
    forall i | 0 <= i < |a| ensures RowStep(a[i], b[i]) && (LoadOk(lib, b[i]) <==> LoadOk(lib, a[i])) {
      ExpireOk(lib, now, a[i]);
      SameRow(a[i]);
    }
  }

  lemma SameRow(r: Row)
    ensures RowStep(r, r)
  {
  }

  lemma MarkEvolves(rows: seq<Row>, i: nat, field: Option<string>)
    requires i < |rows| && rows[i].Status() != REVOKED
    ensures Evolves(rows, Mark(rows, i, field))
  {
  }
}
