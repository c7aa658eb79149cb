/** The revocation field of the CA index: how it is printed and how it is read back. */
module Revocation {
  import opened Bytes

  /** What the certificate library decides: which strings are times and object identifiers, and which times are past. */
  datatype Library = Library(
    utcTime: string -> bool, generalizedTime: string -> bool, anyTime: string -> bool,
    oid: string -> bool, past: (string, string) -> bool)

  datatype RevType = RevValid | RevNone | RevReason | RevHold | RevKeyCompromise | RevCaCompromise

  const REASONS: seq<string> := [
    "unspecified", "keyCompromise", "CACompromise", "affiliationChanged", "superseded",
    "cessationOfOperation", "certificateHold", "removeFromCRL",
    "holdInstruction", "keyTime", "CAkeyTime"]

  /** Those that can be given as a CRL reason come first. */
  const CRL_REASONS := 8

  function Lower(c: char): char {
    if 'A' <= c <= 'Z' then (c as int + 32) as char else c
  }

  /** `OPENSSL_strcasecmp` reports 0. */
  predicate SameText(a: string, b: string) {
    |a| == |b| && forall i :: 0 <= i < |a| ==> Lower(a[i]) == Lower(b[i])
  }

  /** The first reason among the first `n` that is written like `s`, or `n`. */
  function ReasonFrom(s: string, i: nat, n: nat): (k: nat)
    requires i <= n <= |REASONS|
    ensures i <= k <= n
    ensures k < n ==> SameText(s, REASONS[k])
    ensures forall j :: i <= j < k ==> !SameText(s, REASONS[j])
    decreases n - i
  {
    if i == n || SameText(s, REASONS[i]) then i else ReasonFrom(s, i + 1, n)
  }

  method FindReason(s: string, n: nat) returns (k: nat)
    requires n <= |REASONS|
    ensures k == ReasonFrom(s, 0, n)
  {
    k := 0;
    while k < n
      invariant k <= n && ReasonFrom(s, 0, n) == ReasonFrom(s, k, n)
    {
      if SameText(s, REASONS[k]) {
        break;
      }
      k := k + 1;
    }
  }

  /** The names are different even when case is ignored, so each is found under its own number. */
  lemma ReasonIsFound(k: nat, n: nat)
    requires k < n <= |REASONS|
    ensures ReasonFrom(REASONS[k], 0, n) == k
  {
    ReasonLengths();
    var j := ReasonFrom(REASONS[k], 0, n);
    assert SameText(REASONS[k], REASONS[k]);
    if j < k {
      ReasonsDiffer(j, k);
    }
  }

  lemma ReasonLengths()
    ensures |REASONS[0]| == 11 && |REASONS[1]| == 13 && |REASONS[2]| == 12 && |REASONS[3]| == 18
    ensures |REASONS[4]| == 10 && |REASONS[5]| == 20 && |REASONS[6]| == 15 && |REASONS[7]| == 13
    ensures |REASONS[8]| == 15 && |REASONS[9]| == 7 && |REASONS[10]| == 9
  {
  }

  lemma ReasonsDiffer(j: nat, k: nat)
    requires j < k < |REASONS|
    ensures !SameText(REASONS[k], REASONS[j])
  {
    ReasonLengths();
    if j == 1 && k == 7 {
      assert REASONS[1][0] == 'k' && REASONS[7][0] == 'r';
    } else if j == 6 && k == 8 {
      assert REASONS[6][0] == 'c' && REASONS[8][0] == 'h';
    }
  }

  predicate Letter(c: char) { 'a' <= c <= 'z' || 'A' <= c <= 'Z' }

  /** The reasons are made of letters. */
  lemma ReasonsAreLetters(k: nat, c: char)
    requires k < |REASONS| && !Letter(c)
    ensures c !in REASONS[k] && REASONS[k] != ""
  {
    ReasonLengths();
    if k < 4 {
      assert c !in "unspecified" && c !in "keyCompromise" && c !in "CACompromise" && c !in "affiliationChanged";
    } else if k < 8 {
      assert c !in "superseded" && c !in "cessationOfOperation" && c !in "certificateHold" && c !in "removeFromCRL";
    } else {
      assert c !in "holdInstruction" && c !in "keyTime" && c !in "CAkeyTime";
    }
  }

  /** The reason and the extra argument to be written, `None` for arguments that are not valid. */
  datatype Extra = Extra(reason: Option<string>, other: Option<string>)

  function ExtraFor(lib: Library, kind: RevType, arg: string): Option<Extra> {
    match kind
    case RevValid => Some(Extra(None, None))
    case RevNone => Some(Extra(None, None))
    case RevReason =>
      var i := ReasonFrom(arg, 0, CRL_REASONS);
      if i == CRL_REASONS then None else Some(Extra(Some(REASONS[i]), None))
    case RevHold => if lib.oid(arg) then Some(Extra(Some("holdInstruction"), Some(arg))) else None
    case RevKeyCompromise => if lib.generalizedTime(arg) then Some(Extra(Some("keyTime"), Some(arg))) else None
    case RevCaCompromise => if lib.generalizedTime(arg) then Some(Extra(Some("CAkeyTime"), Some(arg))) else None
  }

  /** The field: time, then reason, then argument, with commas between them. */
  function Field(now: string, x: Extra): string {
    now
    + (if x.reason.Some? then "," + x.reason.value else "")
    + (if x.other.Some? then "," + x.other.value else "")
  }

  function RevocationStr(lib: Library, kind: RevType, arg: string, now: string): Option<string> {
    match ExtraFor(lib, kind, arg)
    case None => None
    case Some(x) => Some(Field(now, x))
  }

  /** `OPENSSL_strlcpy` into a buffer of `size` characters: what does not fit is cut off. */
  function Strlcpy(src: string, size: nat): string {
    if |src| < size then src else if size == 0 then "" else src[..size - 1]
  }

  /** `OPENSSL_strlcat`. */
  function Strlcat(dst: string, src: string, size: nat): string {
    if |dst| >= size then dst else dst + Strlcpy(src, size - |dst|)
  }

  lemma CopyFits(src: string, size: nat)
    requires |src| < size
    ensures Strlcpy(src, size) == src
  {
  }

  lemma AppendFits(dst: string, a: string, b: string, size: nat)
    requires |dst| + |a| + |b| < size
    ensures Strlcat(Strlcat(dst, a, size), b, size) == dst + (a + b)
  {
    assert Strlcat(dst, a, size) == dst + a;
    assert dst + a + b == dst + (a + b);
  }

  /** The first half of `make_revocation_str`: reason and argument. */
  method PickExtra(lib: Library, kind: RevType, arg: string) returns (x: Option<Extra>)
    ensures x == ExtraFor(lib, kind, arg)
  {
    hide ReasonFrom;
    match kind {
      case RevNone => x := Some(Extra(None, None));
      case RevValid => x := Some(Extra(None, None));
      case RevReason =>
        var i := FindReason(arg, CRL_REASONS);
        if i == CRL_REASONS {
          return None;
        }
        x := Some(Extra(Some(REASONS[i]), None));
      case RevHold =>
        if !lib.oid(arg) {
          return None;
        }
        x := Some(Extra(Some("holdInstruction"), Some(arg)));
      case RevKeyCompromise =>
        if !lib.generalizedTime(arg) {
          return None;
        }
        x := Some(Extra(Some("keyTime"), Some(arg)));
      case RevCaCompromise =>
        if !lib.generalizedTime(arg) {
          return None;
        }
        x := Some(Extra(Some("CAkeyTime"), Some(arg)));
    }
  }

  /** The second half: the buffer asked for holds the whole field, so nothing is cut off. */
  method Assemble(now: string, x: Extra) returns (str: string)
    ensures str == Field(now, x)
  {
    hide Strlcat, Strlcpy;
    var size := |now| + 1;
    if x.reason.Some? {
      size := size + |x.reason.value| + 1;
    }
    if x.other.Some? {
      size := size + |x.other.value| + 1;
    }
    CopyFits(now, size);
    str := Strlcpy(now, size);
    if x.reason.Some? {
      AppendFits(str, ",", x.reason.value, size);
      str := Strlcat(str, ",", size);
      str := Strlcat(str, x.reason.value, size);
      assert str == now + ("," + x.reason.value);
    }
    ghost var front := str;
    if x.other.Some? {
      AppendFits(str, ",", x.other.value, size);
      str := Strlcat(str, ",", size);
      str := Strlcat(str, x.other.value, size);
      assert str == front + ("," + x.other.value);
    }
  }

  /** `make_revocation_str`. */
  method MakeRevocationStr(lib: Library, kind: RevType, arg: string, now: string) returns (r: Option<string>)
    ensures r == RevocationStr(lib, kind, arg, now)
  {
    hide ExtraFor, Field;
    var x := PickExtra(lib, kind, arg);
    if x == None {
      return None;
    }
    var str := Assemble(now, x.value);
    r := Some(str);
  }

  /** A field read back: date, reason code (-1 for none), hold instruction, compromise time. */
  datatype RevInfo = RevInfo(date: string, reason: int, hold: Option<string>, compromised: Option<string>)

  /** Where the first comma is, or the length. */
  function Comma(s: string): (k: nat)
    ensures k <= |s| && (forall i :: 0 <= i < k ==> s[i] != ',') && (k < |s| ==> s[k] == ',')
  {
    if s == "" || s[0] == ',' then 0 else 1 + Comma(s[1..])
  }

  /** The field cut at its first two commas. */
  datatype Parts = Parts(date: string, reason: Option<string>, arg: Option<string>)

  function Cut(s: string): Parts {
    var p := Comma(s);
    if p == |s| then Parts(s, None, None)
    else
      var rest := s[p + 1..];
      var q := Comma(rest);
      Parts(s[..p], Some(rest[..q]), if q == |rest| then None else Some(rest[q + 1..]))
  }

  /** The reason codes of the pseudo reasons and of removeFromCRL differ from their place in the list. */
  function Interpret(lib: Library, parts: Parts): Option<RevInfo> {
    if !lib.utcTime(parts.date) then None
    else if parts.reason == None then Some(RevInfo(parts.date, -1, None, None))
    else
      var i := ReasonFrom(parts.reason.value, 0, |REASONS|);
      if i == |REASONS| then None
      else if i == 7 then Some(RevInfo(parts.date, 8, None, None))
      else if i == 8 then
        if parts.arg == None || !lib.oid(parts.arg.value) then None
        else Some(RevInfo(parts.date, 6, parts.arg, None))
      else if i == 9 || i == 10 then
        if parts.arg == None || !lib.generalizedTime(parts.arg.value) then None
        else Some(RevInfo(parts.date, if i == 9 then 1 else 2, None, parts.arg))
      else Some(RevInfo(parts.date, i, None, None))
  }

  function Unpack(lib: Library, s: string): Option<RevInfo> {
    Interpret(lib, Cut(s))
  }

  /** The C string that starts at `at` in a buffer. */
  function CString(t: seq<char>, at: nat): (s: string)
    requires at <= |t|
    ensures '\0' !in s && at + |s| <= |t| && s == t[at..at + |s|]
    ensures at + |s| < |t| ==> t[at + |s|] == '\0'
    decreases |t| - at
  {
    if at == |t| || t[at] == '\0' then ""
    else
      var rest := CString(t, at + 1);
      [t[at]] + rest
  }

  lemma {:induction false} CStringIs(t: seq<char>, at: nat, s: string)
    requires at + |s| < |t| && t[at..at + |s|] == s && t[at + |s|] == '\0' && '\0' !in s
    ensures CString(t, at) == s
    decreases |s|
  {
    if s != "" {
      assert t[at] == s[0];
      assert t[at + 1..at + |s|] == s[1..];
      CStringIs(t, at + 1, s[1..]);
      assert s == [s[0]] + s[1..];
    }
  }

  /** `strchr` for a comma in a buffer; the result is the end of the string when there is none. */
  method FindComma(tmp: array<char>, at: nat) returns (p: nat)
    requires at < tmp.Length && tmp[tmp.Length - 1] == '\0'
    requires '\0' !in tmp[at..tmp.Length - 1]
    ensures p == at + Comma(tmp[at..tmp.Length - 1])
  {
    p := at;
    ghost var s := tmp[at..tmp.Length - 1];
    while tmp[p] != '\0' && tmp[p] != ','
      invariant at <= p < tmp.Length && Comma(s) == p - at + Comma(s[p - at..])
      decreases tmp.Length - p
    {
      assert s[p - at] == tmp[p];
      assert s[p - at..][1..] == s[p + 1 - at..];
      p := p + 1;
    }
    if p < tmp.Length - 1 {
      assert s[p - at] == tmp[p];
    }
  }

  /** `unpack_revinfo`: cuts a copy of the field in place and interprets the pieces. */
  method UnpackRevinfo(lib: Library, str: string) returns (r: Option<RevInfo>)
    requires '\0' !in str
    ensures r == Unpack(lib, str)
  {
    var parts := CutInPlace(str);
    if !lib.utcTime(parts.date) {
      return None;
    }
    var info := RevInfo(parts.date, -1, None, None);
    if parts.reason.Some? {
      var i := FindReason(parts.reason.value, |REASONS|);
      if i == |REASONS| {
        return None;
      }
      info := info.(reason := i);
      if i == 7 {
        info := info.(reason := 8);
      } else if i == 8 {
        if parts.arg == None || !lib.oid(parts.arg.value) {
          return None;
        }
        info := info.(reason := 6, hold := parts.arg);
      } else if i == 9 || i == 10 {
        if parts.arg == None || !lib.generalizedTime(parts.arg.value) {
          return None;
        }
        info := info.(reason := if i == 9 then 1 else 2, compromised := parts.arg);
      }
    }
    r := Some(info);
  }

  method CutInPlace(str: string) returns (parts: Parts)
    requires '\0' !in str
    ensures parts == Cut(str)
  {
    hide Comma, CString;
    var n := |str|;
    var tmp := new char[n + 1](i => if 0 <= i < n then str[i] else '\0');
    assert tmp[..] == str + ['\0'];
    assert tmp[0..n] == str;
    var p := FindComma(tmp, 0);
    if tmp[p] == '\0' {
      CStringIs(tmp[..], 0, str);
      return Parts(CString(tmp[..], 0), None, None);
    }
    assert tmp[p] == str[p];
    tmp[p] := '\0';
    parts := CutRest(tmp, str, p);
  }

  /** The part of the cutting after the first comma was overwritten. */
  method CutRest(tmp: array<char>, str: string, p: nat) returns (parts: Parts)
    requires '\0' !in str && p == Comma(str) < |str| && tmp.Length == |str| + 1
    requires tmp[p] == '\0' && tmp[|str|] == '\0'
    requires forall i :: 0 <= i < |str| && i != p ==> tmp[i] == str[i]
    modifies tmp
    ensures parts == Cut(str)
  {
    hide Comma, CString, Cut;
    var reasonAt := p + 1;
    ghost var rest := str[p + 1..];
    assert tmp[reasonAt..|str|] == rest;
    var q := FindComma(tmp, reasonAt);
    CutAt(str, p, q);
    if tmp[q] == '\0' {
      TwoStrings(tmp[..], str, p);
      return Parts(CString(tmp[..], 0), Some(CString(tmp[..], reasonAt)), None);
    }
    tmp[q] := '\0';
    ThreeStrings(tmp[..], str, p, q);
    parts := Parts(CString(tmp[..], 0), Some(CString(tmp[..], reasonAt)), Some(CString(tmp[..], q + 1)));
  }

  /** The parts, by the places of the two commas. */
  lemma CutAt(str: string, p: nat, q: nat)
    requires p == Comma(str) < |str| && q == p + 1 + Comma(str[p + 1..])
    ensures Cut(str) == if q == |str| then Parts(str[..p], Some(str[p + 1..]), None)
                        else Parts(str[..p], Some(str[p + 1..q]), Some(str[q + 1..]))
  {
    hide Comma;
    var rest := str[p + 1..];
    if q == |str| {
      assert rest[..|rest|] == rest;
    } else {
      assert rest[..q - p - 1] == str[p + 1..q] && rest[q - p..] == str[q + 1..];
    }
  }

  lemma TwoStrings(t: seq<char>, str: string, p: nat)
    requires '\0' !in str && p < |str| && |t| == |str| + 1
    requires t[p] == '\0' && t[|str|] == '\0' && forall i :: 0 <= i < |str| && i != p ==> t[i] == str[i]
    ensures CString(t, 0) == str[..p] && CString(t, p + 1) == str[p + 1..]
  {
    hide CString;
    CStringIs(t, 0, str[..p]);
    CStringIs(t, p + 1, str[p + 1..]);
  }

  lemma ThreeStrings(t: seq<char>, str: string, p: nat, q: nat)
    requires '\0' !in str && p < q < |str| && |t| == |str| + 1
    requires t[p] == '\0' && t[q] == '\0' && t[|str|] == '\0'
    requires forall i :: 0 <= i < |str| && i != p && i != q ==> t[i] == str[i]
    ensures CString(t, 0) == str[..p] && CString(t, p + 1) == str[p + 1..q] && CString(t, q + 1) == str[q + 1..]
  {
    hide CString;
    CStringIs(t, 0, str[..p]);
    CStringIs(t, p + 1, str[p + 1..q]);
    CStringIs(t, q + 1, str[q + 1..]);
  }

  /** The reason codes of section 5.3.1 of RFC 5280. */
  function RfcCode(name: string): int {
    if SameText(name, "unspecified") then 0
    else if SameText(name, "keyCompromise") then 1
    else if SameText(name, "cACompromise") then 2
    else if SameText(name, "affiliationChanged") then 3
    else if SameText(name, "superseded") then 4
    else if SameText(name, "cessationOfOperation") then 5
    else if SameText(name, "certificateHold") then 6
    else if SameText(name, "removeFromCRL") then 8
    else -1
  }

  /** What a field made of these arguments should say when it is read back. */
  function Meant(kind: RevType, arg: string, now: string): RevInfo {
    match kind
    case RevValid => RevInfo(now, -1, None, None)
    case RevNone => RevInfo(now, -1, None, None)
    case RevReason => RevInfo(now, RfcCode(arg), None, None)
    case RevHold => RevInfo(now, RfcCode("certificateHold"), Some(arg), None)
    case RevKeyCompromise => RevInfo(now, RfcCode("keyCompromise"), None, Some(arg))
    case RevCaCompromise => RevInfo(now, RfcCode("cACompromise"), None, Some(arg))
  }

  lemma CommaAt(s: string, k: nat)
    requires k <= |s| && ',' !in s[..k] && (k == |s| || s[k] == ',')
    ensures Comma(s) == k
  {
    var c := Comma(s);
    forall i | 0 <= i < k ensures s[i] != ',' {
      assert s[..k][i] == s[i];
    }
  }

  /** Cutting undoes putting together: only the argument may contain commas. */
  lemma CutField(now: string, x: Extra)
    requires ',' !in now && (x.reason.Some? ==> ',' !in x.reason.value) && (x.other.Some? ==> x.reason.Some?)
    ensures Cut(Field(now, x)) == Parts(now, x.reason, x.other)
  {
    hide Comma;
    var s := Field(now, x);
    assert s[..|now|] == now;
    CommaAt(s, |now|);
    if x.reason.Some? {
      var r := x.reason.value;
      var rest := s[|now| + 1..];
      assert rest == r + (if x.other.Some? then "," + x.other.value else "");
      assert rest[..|r|] == r;
      CommaAt(rest, |r|);
      if x.other.Some? {
        assert rest[|r| + 1..] == x.other.value;
      }
    }
  }

  /**
   * Round trip: for every revocation type with valid arguments the field is read back with the same
   * date and argument and the reason code of RFC 5280, exactly when its date is a UTCTime.
   */
  lemma RevocationRoundTrip(lib: Library, kind: RevType, arg: string, now: string)
    requires RevocationStr(lib, kind, arg, now).Some? && ',' !in now
    ensures Unpack(lib, RevocationStr(lib, kind, arg, now).value) ==
            if lib.utcTime(now) then Some(Meant(kind, arg, now)) else None
  {
    hide ReasonFrom, Cut, Field, RfcCode;
    var x := ExtraFor(lib, kind, arg).value;
    if x.reason.Some? {
      var i := match kind
        case RevReason => ReasonFrom(arg, 0, CRL_REASONS)
        case RevHold => 8
        case RevKeyCompromise => 9
        case _ => 10;
      assert x.reason.value == REASONS[i];
      ReasonsAreLetters(i, ',');
      ReasonIsFound(i, |REASONS|);
      if kind == RevReason {
        CodeOfReason(arg, i);
      }
    }
    CodesOfPseudo();
    CutField(now, x);
  }

  lemma CodesOfPseudo()
    ensures RfcCode("certificateHold") == 6 && RfcCode("keyCompromise") == 1 && RfcCode("cACompromise") == 2
  {
    assert SameText("certificateHold", "certificateHold");
    assert SameText("keyCompromise", "keyCompromise");
    assert SameText("cACompromise", "cACompromise");
  }

  lemma CodeOfReason(arg: string, i: nat)
    requires i < CRL_REASONS && i == ReasonFrom(arg, 0, CRL_REASONS)
    ensures RfcCode(arg) == if i == 7 then 8 else i
  {
    ReasonLengths();
    CaseOfCa(arg);
    assert forall j :: 0 <= j < i ==> !SameText(arg, REASONS[j]);
  }

  lemma CaseOfCa(arg: string)
    ensures SameText(arg, "cACompromise") <==> SameText(arg, "CACompromise")
  {
    var a, b := "cACompromise", "CACompromise";
    assert Lower(a[0]) == Lower(b[0]) && a[1..] == b[1..];
    assert forall i :: 0 < i < |a| ==> a[i] == a[1..][i - 1] && b[i] == b[1..][i - 1];
    assert forall i :: 0 <= i < |a| ==> Lower(a[i]) == Lower(b[i]);
  }

  /** The field written out, for the types with a fixed reason: the arguments refused, and what the others give. */
  lemma FieldTexts(lib: Library, arg: string, now: string)
    ensures RevocationStr(lib, RevNone, arg, now) == Some(now) == RevocationStr(lib, RevValid, arg, now)
    ensures RevocationStr(lib, RevHold, arg, now) ==
            if lib.oid(arg) then Some(now + ",holdInstruction," + arg) else None
    ensures RevocationStr(lib, RevKeyCompromise, arg, now) ==
            if lib.generalizedTime(arg) then Some(now + ",keyTime," + arg) else None
    ensures RevocationStr(lib, RevCaCompromise, arg, now) ==
            if lib.generalizedTime(arg) then Some(now + ",CAkeyTime," + arg) else None
  {
    hide ReasonFrom;
    JoinTexts(now, "holdInstruction", arg);
    JoinTexts(now, "keyTime", arg);
    JoinTexts(now, "CAkeyTime", arg);
    assert "," + "holdInstruction" + "," == ",holdInstruction,";
    assert "," + "keyTime" + "," == ",keyTime,";
    assert "," + "CAkeyTime" + "," == ",CAkeyTime,";
    assert now + "" + "" == now;
  }

  /** And for a given reason: it is known by its RFC 5280 name, and written as in the list whatever its case was. */
  lemma ReasonTexts(lib: Library, arg: string, now: string)
    ensures RevocationStr(lib, RevReason, arg, now).Some? <==> RfcCode(arg) >= 0
    ensures forall i :: 0 <= i < CRL_REASONS && SameText(arg, REASONS[i]) ==>
              RevocationStr(lib, RevReason, arg, now) == Some(now + "," + REASONS[i])
  {
    hide RfcCode, ReasonFrom, SameText;
    KnownReason(arg, CRL_REASONS);
    forall i | 0 <= i < CRL_REASONS && SameText(arg, REASONS[i])
      ensures RevocationStr(lib, RevReason, arg, now) == Some(now + "," + REASONS[i])
    {
      OnlyReason(arg, i, CRL_REASONS);
      assert now + ("," + REASONS[i]) + "" == now + "," + REASONS[i];
    }
  }

  lemma JoinTexts(now: string, reason: string, arg: string)
    ensures now + ("," + reason) + ("," + arg) == now + ("," + reason + ",") + arg
  {
  }

  /** A text is written like one reason at most. */
  lemma OnlyReason(s: string, i: nat, n: nat)
    requires i < n <= |REASONS| && SameText(s, REASONS[i])
    ensures ReasonFrom(s, 0, n) == i
  {
    var k := ReasonFrom(s, 0, n);
    if k < i {
      ReasonsDiffer(k, i);
    }
  }

  /** The reasons that may be given have a code, and nothing else has. */
  lemma KnownReason(s: string, n: nat)
    requires CRL_REASONS <= n <= |REASONS|
    ensures ReasonFrom(s, 0, n) < CRL_REASONS <==> RfcCode(s) >= 0
  {
    hide SameText;
    CaseOfCa(s);
    var i := ReasonFrom(s, 0, n);
    if i < CRL_REASONS {
      OnlyReason(s, i, CRL_REASONS);
      CodeOfReason(s, i);
    } else {
      assert forall j :: 0 <= j < CRL_REASONS ==> !SameText(s, REASONS[j]);
      assert !SameText(s, REASONS[0]) && !SameText(s, REASONS[1]) && !SameText(s, REASONS[2]);
      assert !SameText(s, REASONS[3]) && !SameText(s, REASONS[4]) && !SameText(s, REASONS[5]);
      assert !SameText(s, REASONS[6]) && !SameText(s, REASONS[7]);
    }
  }

  /**
   * Which fields can be read back: the date is a UTCTime and the reason, if there is one, is a CRL reason
   * with or without an argument, or a pseudo reason with an argument of its kind.
   */
  lemma UnpackExactly(lib: Library, date: string, x: Extra)
    requires ',' !in date && (x.reason.Some? ==> ',' !in x.reason.value) && (x.other.Some? ==> x.reason.Some?)
    ensures Unpack(lib, Field(date, x)).Some? <==>
              && lib.utcTime(date)
              && (x.reason.Some? ==>
                    || RfcCode(x.reason.value) >= 0
                    || (SameText(x.reason.value, "holdInstruction") && x.other.Some? && lib.oid(x.other.value))
                    || (&& (SameText(x.reason.value, "keyTime") || SameText(x.reason.value, "CAkeyTime"))
                        && x.other.Some? && lib.generalizedTime(x.other.value)))
  {
    hide Cut, Field, RfcCode, ReasonFrom, SameText;
    CutField(date, x);
    if x.reason.Some? {
      var s := x.reason.value;
      KnownReason(s, |REASONS|);
      forall i | 8 <= i < |REASONS| && SameText(s, REASONS[i]) ensures ReasonFrom(s, 0, |REASONS|) == i {
        OnlyReason(s, i, |REASONS|);
      }
      assert REASONS[8] == "holdInstruction" && REASONS[9] == "keyTime" && REASONS[10] == "CAkeyTime";
    }
  }
}
