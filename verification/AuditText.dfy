/** The ledger as text: whole lines or nothing, and what the host's line pattern recovers from them. */
module AuditText {
  import opened Options
  import opened Bytes
  import opened Numerals
  import opened Audit

  const CR: byte := 13
  const LF: byte := 10
  const STAR: byte := 42
  const QUERY: seq<byte> := [63] // "?"
  const AUDIT_RESOURCE_ANY: u32 := 0xFFFF_FFFF
  // "AUDIT: truncated=1\r\n"
  const TAIL: seq<byte> := [65, 85, 68, 73, 84, 58, 32, 116, 114, 117, 110, 99, 97, 116, 101, 100, 61, 49, 13, 10]

  // ---- the fields of a line ----

  /** kind_name */
  function KindName(k: u16): seq<byte> {
    match k
    case 0 => [69, 77, 80, 84, 89] // EMPTY
    case 1 => [71, 82, 65, 78, 84] // GRANT
    case 2 => [68, 69, 78, 89] // DENY
    case 3 => [83, 80, 65, 87, 78] // SPAWN
    case 4 => [77, 68, 69, 78, 89] // MDENY
    case 5 => [81, 85, 79, 84, 65] // QUOTA
    case 6 => [67, 80, 85, 75, 73, 76, 76] // CPUKILL
    case 7 => [82, 69, 86, 79, 75, 69] // REVOKE
    case 8 => [82, 69, 65, 80] // REAP
    case 9 => [81, 83, 85, 66, 77, 73, 84] // QSUBMIT
    case 10 => [85, 78, 76, 73, 78, 75] // UNLINK
    case 11 => [69, 71, 82, 69, 83, 83] // EGRESS
    case _ => QUERY
  }

  /** type_name */
  function TypeName(t: u32): seq<byte> {
    match t
    case 0 => [77, 69, 77] // MEM
    case 1 => [73, 80, 67] // IPC
    case 2 => [68, 69, 86] // DEV
    case 3 => [81, 82, 78, 71] // QRNG
    case 4 => [80, 82, 79, 67] // PROC
    case 5 => [83, 86, 67] // SVC
    case 6 => [70, 73, 69, 76, 68] // FIELD
    case _ => QUERY
  }

  function VerdictName(v: u16): seq<byte> {
    if v == AUDIT_V_EPERM then [69, 80, 69, 82, 77] else [79, 75] // EPERM, OK
  }

  function RidText(r: u32): seq<byte> {
    if r == AUDIT_RESOURCE_ANY then [STAR] else Digits(r, 10, false)
  }

  const FIELDS: nat := 9

  /** The fixed text before each field: "AUDIT: seq=" " tick=" " pid=" " kind=" " res=" ":" " perms=0x" "
      " verdict=" " count=" */
  function Lits(): (r: seq<seq<byte>>)
    ensures |r| == FIELDS
  {
    [
      [65, 85, 68, 73, 84, 58, 32, 115, 101, 113, 61],
      [32, 116, 105, 99, 107, 61],
      [32, 112, 105, 100, 61],
      [32, 107, 105, 110, 100, 61],
      [32, 114, 101, 115, 61],
      [58],
      [32, 112, 101, 114, 109, 115, 61, 48, 120],
      [32, 118, 101, 114, 100, 105, 99, 116, 61],
      [32, 99, 111, 117, 110, 116, 61]
    ]
  }

  /** The text of each field. */
  function Texts(e: Entry): (r: seq<seq<byte>>)
    ensures |r| == FIELDS
  {
    [ Digits(e.seqno, 10, false), Digits(e.tick, 10, false), Digits(e.ev.pid, 10, false), KindName(e.ev.kind),
      TypeName(e.ev.rtype), RidText(e.ev.rid), Digits(e.ev.perms, 16, false), VerdictName(e.ev.verdict),
      Digits(e.count, 10, false) ]
  }

  /** Literals and fields alternating. */
  function Flat(lits: seq<seq<byte>>, texts: seq<seq<byte>>): seq<byte>
    requires |lits| == |texts|
  {
    if lits == [] then [] else lits[0] + texts[0] + Flat(lits[1..], texts[1..])
  }

  /** format_entry: one line, unclipped. */
  function Line(e: Entry): seq<byte> { Flat(Lits(), Texts(e)) + [CR, LF] }

  // ---- the host's pattern ----

  /** The character classes of the pattern: digits, word characters, word characters or "?", "*" or digits,
      hexadecimal digits. */
  datatype Class = Digit | Word | WordQ | Rid | Hex

  predicate InClass(c: Class, b: byte) {
    var n := b as nat;
    match c
    case Digit => 48 <= n <= 57
    case Rid => 48 <= n <= 57
    case Hex => 48 <= n <= 57 || 65 <= n <= 70 || 97 <= n <= 102
    case Word => 48 <= n <= 57 || 65 <= n <= 90 || 97 <= n <= 122 || n == 95
    case WordQ => 48 <= n <= 57 || 65 <= n <= 90 || 97 <= n <= 122 || n == 95 || n == 63
  }

  const CLASSES: seq<Class> := [Digit, Digit, Digit, WordQ, Word, Rid, Hex, Word, Digit]

  /** How much of s a greedy class takes. */
  function Span(c: Class, s: seq<byte>): (n: nat)
    ensures n <= |s|
  {
    if s == [] || !InClass(c, s[0]) then 0 else 1 + Span(c, s[1..])
  }

  function TakeLen(c: Class, s: seq<byte>): (n: nat)
    ensures n <= |s|
  {
    if c == Rid && s != [] && s[0] == STAR then 1 else Span(c, s)
  }

  /** The pattern from one field on: the groups it captures, if it matches at the start of s. Each class takes all it
      can and gives nothing back; Decomposes is what a backtracking matcher searches, and OnlyMatch and MatchSound
      show that giving back could never help, since no class contains the character that must follow it. */
  function Match(lits: seq<seq<byte>>, cs: seq<Class>, s: seq<byte>): Option<seq<seq<byte>>>
    requires |lits| == |cs|
  {
    if lits == [] then Some([])
    else if !(lits[0] <= s) then None
    else
      var t := s[|lits[0]|..];
      var n := TakeLen(cs[0], t);
      if n == 0 then None
      else match Match(lits[1..], cs[1..], t[n..]) case None => None case Some(r) => Some([t[..n]] + r)
  }

  ghost predicate All(c: Class, text: seq<byte>) { forall i | 0 <= i < |text| :: InClass(c, text[i]) }

  /** A text the class takes whole. */
  ghost predicate Good(c: Class, text: seq<byte>) {
    text != [] && ((c == Rid && text == [STAR]) || All(c, text))
  }

  /** Where the class stops: the end, or a character outside it. */
  ghost predicate Stops(c: Class, rest: seq<byte>) {
    rest != [] ==> !InClass(c, rest[0])
  }

  lemma {:induction false} SpanWhole(c: Class, text: seq<byte>, rest: seq<byte>)
    requires All(c, text) && Stops(c, rest)
    ensures Span(c, text + rest) == |text|
  {
    hide InClass;
    if text == [] {
      assert text + rest == rest;
    } else {
      SpanWhole(c, text[1..], rest);
      assert (text + rest)[1..] == text[1..] + rest;
    }
  }

  lemma TakesWhole(c: Class, text: seq<byte>, rest: seq<byte>)
    requires Good(c, text) && Stops(c, rest)
    ensures TakeLen(c, text + rest) == |text|
  {
    assert (text + rest)[0] == text[0];
    if !(c == Rid && text == [STAR]) {
      SpanWhole(c, text, rest);
    }
  }

  lemma GoodNonempty(c: Class, text: seq<byte>)
    requires Good(c, text)
    ensures text != []
  {
  }

  /** Every literal after the first starts outside the class before it. */
  ghost predicate Separated(lits: seq<seq<byte>>, cs: seq<Class>) {
    |lits| == |cs| && forall i | 0 < i < |lits| :: lits[i] != [] && !InClass(cs[i - 1], lits[i][0])
  }

  /** A line whose fields are all in their classes gives back its fields, whatever follows that no class takes. */
  lemma {:induction false} MatchesFlat(lits: seq<seq<byte>>, cs: seq<Class>, texts: seq<seq<byte>>, rest: seq<byte>)
    requires Separated(lits, cs) && |texts| == |lits| && (forall c :: Stops(c, rest))
    requires forall i | 0 <= i < |texts| :: Good(cs[i], texts[i])
    ensures Match(lits, cs, Flat(lits, texts) + rest) == Some(texts)
  {
    hide InClass, Good, TakeLen;
    if lits != [] {
      var tail := Flat(lits[1..], texts[1..]) + rest;
      var s := Flat(lits, texts) + rest;
      assert s == lits[0] + (texts[0] + tail);
      assert s[|lits[0]|..] == texts[0] + tail;
      assert Stops(cs[0], tail) by { if |lits| > 1 { assert tail[0] == lits[1][0]; } else { assert tail == rest; } }
      TakesWhole(cs[0], texts[0], tail);
      GoodNonempty(cs[0], texts[0]);
      assert (texts[0] + tail)[..|texts[0]|] == texts[0] && (texts[0] + tail)[|texts[0]|..] == tail;
      MatchesFlat(lits[1..], cs[1..], texts[1..], rest);
      assert [texts[0]] + texts[1..] == texts;
    }
  }

  /** A field that starts outside its class loses the line. */
  lemma {:induction false} StuckAt(lits: seq<seq<byte>>, cs: seq<Class>, texts: seq<seq<byte>>, rest: seq<byte>, k: nat)
    requires Separated(lits, cs) && |texts| == |lits| && k < |lits|
    requires forall i | 0 <= i < k :: Good(cs[i], texts[i])
    requires texts[k] != [] && cs[k] != Rid && !InClass(cs[k], texts[k][0])
    ensures Match(lits, cs, Flat(lits, texts) + rest) == None
  {
    hide InClass, Good;
    var tail := Flat(lits[1..], texts[1..]) + rest;
    var s := Flat(lits, texts) + rest;
    assert s == lits[0] + (texts[0] + tail);
    assert s[|lits[0]|..] == texts[0] + tail;
    if k == 0 {
      assert (texts[0] + tail)[0] == texts[0][0];
    } else {
      assert tail[0] == lits[1][0];
      GoodNonempty(cs[0], texts[0]);
      TakesWhole(cs[0], texts[0], tail);
      assert (texts[0] + tail)[|texts[0]|..] == tail;
      StuckAt(lits[1..], cs[1..], texts[1..], rest, k - 1);
    }
  }

  /** One way of reading the start of s as the pattern, however it may be found. */
  ghost predicate Decomposes(lits: seq<seq<byte>>, cs: seq<Class>, s: seq<byte>, texts: seq<seq<byte>>,
                             rest: seq<byte>) {
    && |lits| == |cs| == |texts|
    && (forall i | 0 <= i < |texts| :: Good(cs[i], texts[i]))
    && s == Flat(lits, texts) + rest
  }

  lemma {:induction false} SpanAtLeast(c: Class, text: seq<byte>, rest: seq<byte>)
    requires All(c, text)
    ensures Span(c, text + rest) >= |text|
  {
    hide InClass;
    if text != [] {
      SpanAtLeast(c, text[1..], rest);
      assert (text + rest)[1..] == text[1..] + rest;
    }
  }

  lemma TakesAtLeast(c: Class, text: seq<byte>, rest: seq<byte>)
    requires Good(c, text)
    ensures |text| <= TakeLen(c, text + rest)
  {
    assert (text + rest)[0] == text[0];
    if !(c == Rid && text == [STAR]) { SpanAtLeast(c, text, rest); }
  }

  lemma SameGroups(texts: seq<seq<byte>>, r: seq<seq<byte>>)
    requires |texts| > 1 && |r| == |texts| - 1
    requires (forall i | 0 <= i < |r| - 1 :: r[i] == texts[1..][i]) && texts[1..][|r| - 1] <= r[|r| - 1]
    ensures var m := [texts[0]] + r;
            (forall i | 0 <= i < |texts| - 1 :: m[i] == texts[i]) && texts[|texts| - 1] <= m[|texts| - 1]
  {
    var m := [texts[0]] + r;
    forall i | 0 <= i < |texts| - 1
      ensures m[i] == texts[i]
    {
      if i > 0 { assert r[i - 1] == texts[1..][i - 1]; }
    }
  }

  /** Whatever reading exists, the matcher finds: the same groups, the last one at least as long. */
  lemma {:induction false} OnlyMatch(lits: seq<seq<byte>>, cs: seq<Class>, s: seq<byte>, texts: seq<seq<byte>>,
                                     rest: seq<byte>)
    requires Separated(lits, cs) && Decomposes(lits, cs, s, texts, rest)
    ensures var m := Match(lits, cs, s);
            && m.Some? && |m.value| == |texts|
            && (forall i | 0 <= i < |texts| - 1 :: m.value[i] == texts[i])
            && (texts != [] ==> texts[|texts| - 1] <= m.value[|texts| - 1])
  {
    hide InClass, Good, TakeLen;
    if lits != [] {
      var tail := Flat(lits[1..], texts[1..]) + rest;
      assert s == lits[0] + (texts[0] + tail);
      assert s[|lits[0]|..] == texts[0] + tail;
      var n := TakeLen(cs[0], texts[0] + tail);
      GoodNonempty(cs[0], texts[0]);
      if |lits| > 1 {
        assert tail[0] == lits[1][0];
        TakesWhole(cs[0], texts[0], tail);
        assert (texts[0] + tail)[..n] == texts[0] && (texts[0] + tail)[n..] == tail;
        OnlyMatch(lits[1..], cs[1..], tail, texts[1..], rest);
        var r := Match(lits[1..], cs[1..], tail).value;
        assert Match(lits, cs, s) == Some([texts[0]] + r);
        SameGroups(texts, r);
      } else {
        TakesAtLeast(cs[0], texts[0], tail);
        assert Match(lits[1..], cs[1..], (texts[0] + tail)[n..]) == Some([]);
        assert texts[0] <= (texts[0] + tail)[..n];
      }
    }
  }

  lemma {:induction false} SpanAll(c: Class, s: seq<byte>)
    ensures All(c, s[..Span(c, s)])
  {
    hide InClass;
    if s != [] && InClass(c, s[0]) {
      SpanAll(c, s[1..]);
      assert s[..Span(c, s)] == [s[0]] + s[1..][..Span(c, s[1..])];
    }
  }

  lemma TakeGood(c: Class, s: seq<byte>)
    requires TakeLen(c, s) > 0
    ensures Good(c, s[..TakeLen(c, s)])
  {
    hide InClass;
    SpanAll(c, s);
  }

  lemma Reassembles(l: seq<byte>, t: seq<byte>, n: nat, flat: seq<byte>, rest: seq<byte>)
    requires n <= |t| && t[n..] == flat + rest
    ensures l + t == l + t[..n] + flat + rest
  {
    assert t == t[..n] + t[n..];
  }

  lemma FlatCons(lits: seq<seq<byte>>, texts: seq<seq<byte>>)
    requires |lits| == |texts| > 0
    ensures Flat(lits, texts) == lits[0] + texts[0] + Flat(lits[1..], texts[1..])
  {
  }

  /** What the matcher finds is a reading. */
  lemma {:induction false} MatchSound(lits: seq<seq<byte>>, cs: seq<Class>, s: seq<byte>) returns (rest: seq<byte>)
    requires |lits| == |cs| && Match(lits, cs, s).Some?
    ensures |Match(lits, cs, s).value| == |lits| && Decomposes(lits, cs, s, Match(lits, cs, s).value, rest)
  {
    hide InClass, Good, TakeLen;
    if lits == [] {
      rest := s;
    } else {
      var t := s[|lits[0]|..];
      var n := TakeLen(cs[0], t);
      rest := MatchSound(lits[1..], cs[1..], t[n..]);
      var r := Match(lits[1..], cs[1..], t[n..]).value;
      TakeGood(cs[0], t);
      assert ([t[..n]] + r)[1..] == r;
      hide Match, Flat;
      Reassembles(lits[0], t, n, Flat(lits[1..], r), rest);
      FlatCons(lits, [t[..n]] + r);
    }
  }

  // ---- the fields are in their classes ----

  lemma DigitIn(d: nat)
    requires d < 16
    ensures InClass(Hex, Numerals.Digit(d, false))
    ensures d < 10 ==> InClass(Digit, Numerals.Digit(d, false)) && InClass(Rid, Numerals.Digit(d, false))
  {
    hide Octet;
  }

  lemma {:induction false} DecimalGood(v: nat)
    ensures All(Digit, Digits(v, 10, false)) && All(Rid, Digits(v, 10, false))
  {
    hide InClass, Numerals.Digit;
    if v >= 10 {
      DecimalGood(v / 10);
      DigitIn(v % 10);
    } else {
      DigitIn(v);
    }
  }

  lemma {:induction false} HexGood(v: nat)
    ensures All(Hex, Digits(v, 16, false))
  {
    hide InClass, Numerals.Digit;
    if v >= 16 {
      HexGood(v / 16);
      DigitIn(v % 16);
    } else {
      DigitIn(v);
    }
  }

  lemma KindGood(k: u16)
    ensures Good(WordQ, KindName(k))
  {
    hide KindName, Good;
    if k < 4 {
      KindsBelow4(k);
    } else if k < 8 {
      KindsBelow8(k);
    } else {
      KindsFrom8(k);
    }
  }

  lemma KindsBelow4(k: u16)
    requires k < 4
    ensures Good(WordQ, KindName(k))
  {
  }

  lemma KindsBelow8(k: u16)
    requires 4 <= k < 8
    ensures Good(WordQ, KindName(k))
  {
  }

  lemma KindsFrom8(k: u16)
    requires 8 <= k
    ensures Good(WordQ, KindName(k))
  {
  }

  lemma TypeGood(t: u32)
    ensures t < 7 ==> Good(Word, TypeName(t))
    ensures t >= 7 ==> TypeName(t) == QUERY && !InClass(Word, QUERY[0])
  {
  }

  lemma VerdictGood(v: u16)
    ensures Good(Word, VerdictName(v))
  {
  }

  lemma PatternSeparated()
    ensures |Lits()| == |CLASSES| == FIELDS && Separated(Lits(), CLASSES)
    ensures forall c :: Stops(c, [CR]) && Stops(c, [CR, LF])
  {
  }

  lemma TextsGood(e: Entry)
    ensures forall i | 0 <= i < FIELDS && i != 4 :: Good(CLASSES[i], Texts(e)[i])
    ensures e.ev.rtype < 7 ==> Good(CLASSES[4], Texts(e)[4])
    ensures e.ev.rtype >= 7 ==> Texts(e)[4] == QUERY && !InClass(CLASSES[4], QUERY[0])
  {
    hide InClass, Digits, KindName, TypeName, VerdictName, All;
    DecimalGood(e.seqno);
    DecimalGood(e.tick);
    DecimalGood(e.ev.pid);
    DecimalGood(e.ev.rid);
    HexGood(e.ev.perms);
    DecimalGood(e.count);
    KindGood(e.ev.kind);
    TypeGood(e.ev.rtype);
    VerdictGood(e.ev.verdict);
  }

  // ---- the texts ----

  /** The names printed for the kinds, the resource types and the verdicts. */
  lemma KindNames(k: u16)
    ensures KindName(0) == Ascii("EMPTY")
    ensures KindName(1) == Ascii("GRANT")
    ensures KindName(2) == Ascii("DENY")
    ensures KindName(3) == Ascii("SPAWN")
    ensures KindName(4) == Ascii("MDENY")
    ensures KindName(5) == Ascii("QUOTA")
    ensures KindName(6) == Ascii("CPUKILL")
    ensures KindName(7) == Ascii("REVOKE")
    ensures KindName(8) == Ascii("REAP")
    ensures KindName(9) == Ascii("QSUBMIT")
    ensures KindName(10) == Ascii("UNLINK")
    ensures KindName(11) == Ascii("EGRESS")
    ensures k > 11 ==> KindName(k) == Ascii("?")
  {
    hide Ascii, KindName;
    FirstNames();
    MiddleNames();
    LastNames(k);
  }

  lemma FirstNames()
    ensures KindName(0) == Ascii("EMPTY")
    ensures KindName(1) == Ascii("GRANT")
    ensures KindName(2) == Ascii("DENY")
    ensures KindName(3) == Ascii("SPAWN")
  {
    hide Ascii;
    AsciiIs("EMPTY", [69, 77, 80, 84, 89]);
    AsciiIs("GRANT", [71, 82, 65, 78, 84]);
    AsciiIs("DENY", [68, 69, 78, 89]);
    AsciiIs("SPAWN", [83, 80, 65, 87, 78]);
  }

  lemma MiddleNames()
    ensures KindName(4) == Ascii("MDENY")
    ensures KindName(5) == Ascii("QUOTA")
    ensures KindName(6) == Ascii("CPUKILL")
    ensures KindName(7) == Ascii("REVOKE")
  {
    hide Ascii;
    AsciiIs("MDENY", [77, 68, 69, 78, 89]);
    AsciiIs("QUOTA", [81, 85, 79, 84, 65]);
    AsciiIs("CPUKILL", [67, 80, 85, 75, 73, 76, 76]);
    AsciiIs("REVOKE", [82, 69, 86, 79, 75, 69]);
  }

  lemma LastNames(k: u16)
    ensures KindName(8) == Ascii("REAP")
    ensures KindName(9) == Ascii("QSUBMIT")
    ensures KindName(10) == Ascii("UNLINK")
    ensures KindName(11) == Ascii("EGRESS")
    ensures k > 11 ==> KindName(k) == Ascii("?")
  {
    hide Ascii;
    AsciiIs("REAP", [82, 69, 65, 80]);
    AsciiIs("QSUBMIT", [81, 83, 85, 66, 77, 73, 84]);
    AsciiIs("UNLINK", [85, 78, 76, 73, 78, 75]);
    AsciiIs("EGRESS", [69, 71, 82, 69, 83, 83]);
    AsciiIs("?", QUERY);
  }

  lemma TypeNames(t: u32)
    ensures TypeName(0) == Ascii("MEM")
    ensures TypeName(1) == Ascii("IPC")
    ensures TypeName(2) == Ascii("DEV")
    ensures TypeName(3) == Ascii("QRNG")
    ensures TypeName(4) == Ascii("PROC")
    ensures TypeName(5) == Ascii("SVC")
    ensures TypeName(6) == Ascii("FIELD")
    ensures t > 6 ==> TypeName(t) == Ascii("?")
  {
    hide Ascii;
    AsciiIs("MEM", [77, 69, 77]);
    AsciiIs("IPC", [73, 80, 67]);
    AsciiIs("DEV", [68, 69, 86]);
    AsciiIs("QRNG", [81, 82, 78, 71]);
    AsciiIs("PROC", [80, 82, 79, 67]);
    AsciiIs("SVC", [83, 86, 67]);
    AsciiIs("FIELD", [70, 73, 69, 76, 68]);
    AsciiIs("?", QUERY);
  }

  lemma VerdictNames(v: u16)
    ensures VerdictName(v) == Ascii(if v == 2 then "EPERM" else "OK")
    ensures RidText(0xFFFF_FFFF) == Ascii("*")
    ensures forall r: u32 | r != 0xFFFF_FFFF :: RidText(r) == Digits(r, 10, false)
  {
    hide Ascii, Digits;
    AsciiIs("EPERM", [69, 80, 69, 82, 77]);
    AsciiIs("OK", [79, 75]);
    AsciiIs("*", [STAR]);
  }

  lemma FixedTexts()
    ensures Lits() == [Ascii("AUDIT: seq="), Ascii(" tick="), Ascii(" pid="), Ascii(" kind="), Ascii(" res="),
                       Ascii(":"), Ascii(" perms=0x"), Ascii(" verdict="), Ascii(" count=")]
    ensures TAIL == Ascii("AUDIT: truncated=1\r\n")
  {
    hide Ascii;
    AsciiIs("AUDIT: seq=", [65, 85, 68, 73, 84, 58, 32, 115, 101, 113, 61]);
    AsciiIs(" tick=", [32, 116, 105, 99, 107, 61]);
    AsciiIs(" pid=", [32, 112, 105, 100, 61]);
    AsciiIs(" kind=", [32, 107, 105, 110, 100, 61]);
    AsciiIs(" res=", [32, 114, 101, 115, 61]);
    AsciiIs(":", [58]);
    AsciiIs(" perms=0x", [32, 112, 101, 114, 109, 115, 61, 48, 120]);
    AsciiIs(" verdict=", [32, 118, 101, 114, 100, 105, 99, 116, 61]);
    AsciiIs(" count=", [32, 99, 111, 117, 110, 116, 61]);
    TailText();
  }

  lemma TailText()
    ensures TAIL == Ascii("AUDIT: truncated=1\r\n")
  {
    hide Ascii;
    AsciiIs("AUDIT: ", [65, 85, 68, 73, 84, 58, 32]);
    AsciiIs("truncated", [116, 114, 117, 110, 99, 97, 116, 101, 100]);
    AsciiIs("=1\r\n", [61, 49, 13, 10]);
    AsciiConcat("AUDIT: ", "truncated");
    AsciiConcat("AUDIT: " + "truncated", "=1\r\n");
    assert ("AUDIT: " + "truncated") + "=1\r\n" == "AUDIT: truncated=1\r\n";
  }

  /** The whole line of an entry. */
  lemma LineIs(e: Entry)
    ensures Line(e)
            == Ascii("AUDIT: seq=") + Digits(e.seqno, 10, false) + Ascii(" tick=") + Digits(e.tick, 10, false) +
               Ascii(" pid=") + Digits(e.ev.pid, 10, false) + Ascii(" kind=") + KindName(e.ev.kind) +
               Ascii(" res=") + TypeName(e.ev.rtype) + Ascii(":") + RidText(e.ev.rid) +
               Ascii(" perms=0x") + Digits(e.ev.perms, 16, false) + Ascii(" verdict=") + VerdictName(e.ev.verdict) +
               Ascii(" count=") + Digits(e.count, 10, false) + Ascii("\r\n")
  {
    hide Ascii, Digits, KindName, TypeName, RidText, VerdictName, Lits;
    FixedTexts();
    AsciiIs("\r\n", [CR, LF]);
    FlatNine(Lits(), Texts(e));
  }

  lemma FlatNine(l: seq<seq<byte>>, t: seq<seq<byte>>)
    requires |l| == |t| == 9
    ensures Flat(l, t) == l[0] + t[0] + l[1] + t[1] + l[2] + t[2] + l[3] + t[3] + l[4] + t[4] + l[5] + t[5] +
                          l[6] + t[6] + l[7] + t[7] + l[8] + t[8]
  {
    FlatThree(l, t);
    FlatThree(l[3..], t[3..]);
    FlatThree(l[6..], t[6..]);
    assert Flat(l[6..][3..], t[6..][3..]) == [];
    Nine(l[0] + t[0] + l[1] + t[1] + l[2] + t[2], l[3], t[3], l[4], t[4], l[5], t[5],
      l[6], t[6], l[7], t[7], l[8], t[8]);
  }

  lemma FlatThree(l: seq<seq<byte>>, t: seq<seq<byte>>)
    requires |l| == |t| >= 3
    ensures Flat(l, t) == l[0] + t[0] + l[1] + t[1] + l[2] + t[2] + Flat(l[3..], t[3..])
  {
    hide Flat;
    FlatCons(l, t);
    FlatCons(l[1..], t[1..]);
    FlatCons(l[2..], t[2..]);
    assert l[1..][1..] == l[2..] && t[1..][1..] == t[2..] && l[2..][1..] == l[3..] && t[2..][1..] == t[3..];
    ThreePairs(l[0], t[0], l[1], t[1], l[2], t[2], Flat(l[3..], t[3..]));
  }

  lemma ThreePairs(a: seq<byte>, b: seq<byte>, c: seq<byte>, d: seq<byte>, e: seq<byte>, g: seq<byte>, r: seq<byte>)
    ensures a + b + (c + d + (e + g + r)) == a + b + c + d + e + g + r
  {
  }

  lemma Nine(p: seq<byte>, a: seq<byte>, b: seq<byte>, c: seq<byte>, d: seq<byte>, e: seq<byte>, g: seq<byte>,
             h: seq<byte>, i: seq<byte>, j: seq<byte>, k: seq<byte>, m: seq<byte>, n: seq<byte>)
    ensures p + (a + b + c + d + e + g + (h + i + j + k + m + n + []))
            == p + a + b + c + d + e + g + h + i + j + k + m + n
  {
    var x, y := a + b + c + d + e + g, h + i + j + k + m + n;
    assert y + [] == y;
  }

  /** The character classes of the host's pattern: digits, hexadecimal digits, word characters, and these or "?". */
  lemma ClassesAre(b: byte)
    ensures var n := b as nat;
            var digit := '0' as nat <= n <= '9' as nat;
            var word := digit || 'A' as nat <= n <= 'Z' as nat || 'a' as nat <= n <= 'z' as nat || n == '_' as nat;
            && (InClass(Digit, b) <==> digit) && (InClass(Rid, b) <==> digit)
            && (InClass(Hex, b) <==> digit || 'A' as nat <= n <= 'F' as nat || 'a' as nat <= n <= 'f' as nat)
            && (InClass(Word, b) <==> word) && (InClass(WordQ, b) <==> word || n == '?' as nat)
  {
  }

  /** What the host keeps of a matched line. */
  datatype HostEntry = HostEntry(seqno: nat, tick: nat, pid: nat, kind: seq<byte>, rtype: seq<byte>, rid: seq<byte>,
                                 perms: nat, verdict: seq<byte>, count: nat)

  /** The groups converted; None where int() would raise. */
  function FromGroups(g: seq<seq<byte>>): Option<HostEntry>
    requires |g| == FIELDS
  {
    var a, b, c, p, n := ParseInt(g[0], 10), ParseInt(g[1], 10), ParseInt(g[2], 10), ParseInt(g[6], 16),
      ParseInt(g[8], 10);
    if a.None? || b.None? || c.None? || p.None? || n.None? then None
    else Some(HostEntry(a.value, b.value, c.value, g[3], g[4], g[5], p.value, g[7], n.value))
  }

  lemma {:induction false} MatchLen(lits: seq<seq<byte>>, cs: seq<Class>, s: seq<byte>)
    requires |lits| == |cs|
    ensures var m := Match(lits, cs, s); m.Some? ==> |m.value| == |lits|
  {
    if lits != [] && lits[0] <= s {
      var t := s[|lits[0]|..];
      MatchLen(lits[1..], cs[1..], t[TakeLen(cs[0], t)..]);
    }
  }

  /** The pattern tried at the start of one line. */
  function HostLine(line: seq<byte>): Option<HostEntry> {
    var m := Match(Lits(), CLASSES, line);
    MatchLen(Lits(), CLASSES, line);
    if m.None? then None else FromGroups(m.value)
  }

  /** The entry as the host should see it. */
  function HostOf(e: Entry): HostEntry {
    HostEntry(e.seqno, e.tick, e.ev.pid, KindName(e.ev.kind), TypeName(e.ev.rtype), RidText(e.ev.rid), e.ev.perms,
              VerdictName(e.ev.verdict), e.count)
  }

  lemma GroupsConvert(e: Entry)
    ensures FromGroups(Texts(e)) == Some(HostOf(e))
  {
    hide Digits, ParseInt, KindName, TypeName, VerdictName, RidText;
    DigitsRoundTrip(e.seqno, 10, false);
    DigitsRoundTrip(e.tick, 10, false);
    DigitsRoundTrip(e.ev.pid, 10, false);
    DigitsRoundTrip(e.ev.perms, 16, false);
    DigitsRoundTrip(e.count, 10, false);
  }

  function LineText(e: Entry): seq<byte> { Flat(Lits(), Texts(e)) + [CR] }

  /** The host recovers every field of a formatted line exactly, and loses the line exactly when its resource
      type has no name: the type group, unlike the kind group, does not admit the "?" printed for it. */
  lemma LineRecovered(e: Entry)
    ensures HostLine(LineText(e)) == if e.ev.rtype < 7 then Some(HostOf(e)) else None
    ensures e.ev.rtype >= 7 ==> forall texts, rest :: !Decomposes(Lits(), CLASSES, LineText(e), texts, rest)
  {
    hide Texts, Flat, Match, FromGroups, HostOf, Good, InClass, Decomposes;
    PatternSeparated();
    TextsGood(e);
    if e.ev.rtype < 7 {
      MatchesFlat(Lits(), CLASSES, Texts(e), [CR]);
      GroupsConvert(e);
    } else {
      StuckAt(Lits(), CLASSES, Texts(e), [CR], 4);
      forall texts, rest | Decomposes(Lits(), CLASSES, LineText(e), texts, rest) ensures false {
        OnlyMatch(Lits(), CLASSES, LineText(e), texts, rest);
      }
    }
  }

  /** Where the formatter has a name for everything, what the host sees determines the entry. */
  ghost predicate Named(e: Entry) {
    e.ev.kind <= 11 && e.ev.rtype < 7 && (e.ev.verdict == AUDIT_V_OK || e.ev.verdict == AUDIT_V_EPERM)
  }

  lemma HostOfInjective(e: Entry, d: Entry)
    requires Named(e) && Named(d) && HostOf(e) == HostOf(d)
    ensures e == d
  {
    hide Digits, ParseInt;
    KindInjective(e.ev.kind, d.ev.kind);
    TypeInjective(e.ev.rtype, d.ev.rtype);
    RidInjective(e.ev.rid, d.ev.rid);
    hide KindName, TypeName, RidText;
  }

  lemma KindInjective(k: u16, j: u16)
    requires k <= 11 && j <= 11 && KindName(k) == KindName(j)
    ensures k == j
  {
    var a, b := KindName(k), KindName(j);
    assert |a| == |b| && a[0] == b[0] && a[1] == b[1] && a[2] == b[2];
  }

  lemma TypeInjective(k: u32, j: u32)
    requires k < 7 && j < 7 && TypeName(k) == TypeName(j)
    ensures k == j
  {
    var a, b := TypeName(k), TypeName(j);
    assert |a| == |b| && a[0] == b[0] && a[1] == b[1];
  }

  lemma RidInjective(r: u32, q: u32)
    requires RidText(r) == RidText(q)
    ensures r == q
  {
    hide Digits, InClass;
    DecimalGood(r);
    DecimalGood(q);
    DigitsRoundTrip(r, 10, false);
    DigitsRoundTrip(q, 10, false);
    StarIsNoDigit();
    assert RidText(r) == [STAR] ==> RidText(r)[0] == STAR;
  }

  lemma StarIsNoDigit()
    ensures !InClass(Digit, STAR)
  {
  }

  // ---- the whole text ----

  function Lines(es: seq<Entry>): seq<byte> {
    if es == [] then [] else Lines(es[..|es| - 1]) + Line(es[|es| - 1])
  }

  /** How many lines are committed, whole or not at all, before one does not fit the budget. */
  function Committed(es: seq<Entry>, k: nat, budget: nat): (n: nat)
    requires k <= |es|
    ensures k <= n <= |es|
    decreases |es| - k
  {
    if k == |es| || |Lines(es[..k])| + |Line(es[k])| >= budget then k else Committed(es, k + 1, budget)
  }

  /** What audit_format puts in a buffer of max bytes, the terminating zero aside. */
  function Text(es: seq<Entry>, max: nat): seq<byte> {
    if max < |TAIL| + 1 then []
    else
      var n := Committed(es, 0, max - |TAIL| - 1);
      Lines(es[..n]) + if n < |es| then TAIL else []
  }

  lemma LinesStep(es: seq<Entry>, k: nat)
    requires k < |es|
    ensures Lines(es[..k + 1]) == Lines(es[..k]) + Line(es[k])
  {
    assert es[..k + 1][..k] == es[..k];
  }

  lemma {:induction false} LinesGrow(es: seq<Entry>, j: nat, k: nat)
    requires j <= k <= |es|
    ensures |Lines(es[..j])| <= |Lines(es[..k])|
    decreases k - j
  {
    hide Line;
    if j < k {
      LinesStep(es, k - 1);
      LinesGrow(es, j, k - 1);
    }
  }

  /** The committed lines are the longest prefix whose every line ended inside the budget. */
  lemma {:induction false} CommittedLongest(es: seq<Entry>, k: nat, budget: nat)
    requires k <= |es| && (k > 0 ==> |Lines(es[..k])| < budget)
    ensures var n := Committed(es, k, budget);
            && (n > 0 ==> |Lines(es[..n])| < budget)
            && (n < |es| ==> |Lines(es[..n + 1])| >= budget)
    decreases |es| - k
  {
    hide Line, Lines;
    if k < |es| {
      LinesStep(es, k);
      if |Lines(es[..k])| + |Line(es[k])| < budget { CommittedLongest(es, k + 1, budget); }
    }
  }

  /** The text always leaves room for its terminating zero; it is a prefix of whole lines in walk order, and
      the truncation notice follows exactly when the lines of the whole ledger would not fit the budget. */
  lemma TextFits(es: seq<Entry>, max: nat)
    ensures max > 0 ==> |Text(es, max)| < max
    ensures max <= |TAIL| ==> Text(es, max) == []
    ensures max > |TAIL| ==>
              var n := Committed(es, 0, max - |TAIL| - 1);
              && Text(es, max) == Lines(es[..n]) + (if n < |es| then TAIL else [])
              && (n < |es| <==> es != [] && |Lines(es)| >= max - |TAIL| - 1)
  {
    hide Line, Lines;
    if max > |TAIL| {
      CommittedLongest(es, 0, max - |TAIL| - 1);
      var n := Committed(es, 0, max - |TAIL| - 1);
      NoLines(es);
      assert es[..|es|] == es;
      if n < |es| { LinesGrow(es, n + 1, |es|); }
    }
  }

  lemma NoLines(es: seq<Entry>)
    ensures Lines(es[..0]) == []
  {
  }

  // ---- the host reading the whole text ----

  /** The length of the first line, its line feed aside. */
  function FirstLine(s: seq<byte>): (n: nat)
    ensures n <= |s|
    ensures n < |s| ==> s[n] == LF
    ensures LF !in s[..n]
  {
    if s == [] || s[0] == LF then 0 else 1 + FirstLine(s[1..])
  }

  function Listed(h: Option<HostEntry>): seq<HostEntry> { if h.Some? then [h.value] else [] }

  /** Every match of the anchored pattern: it never crosses a line end, so it is tried once per line. */
  function HostText(s: seq<byte>): seq<HostEntry>
    decreases |s|
  {
    var n := FirstLine(s);
    Listed(HostLine(s[..n])) + if n < |s| then HostText(s[n + 1..]) else []
  }

  /** The entries the host should list. */
  function Recovered(es: seq<Entry>): seq<HostEntry> {
    if es == [] then []
    else Recovered(es[..|es| - 1]) + if es[|es| - 1].ev.rtype < 7 then [HostOf(es[|es| - 1])] else []
  }

  lemma {:induction false} FirstLineIs(a: seq<byte>, rest: seq<byte>)
    requires LF !in a
    ensures FirstLine(a + [LF] + rest) == |a|
  {
    var s := a + [LF] + rest;
    if a != [] {
      FirstLineIs(a[1..], rest);
      assert s[1..] == a[1..] + [LF] + rest;
    }
  }

  lemma OneLine(a: seq<byte>, rest: seq<byte>)
    requires LF !in a
    ensures HostText(a + [LF] + rest) == Listed(HostLine(a)) + HostText(rest)
  {
    hide HostLine, Listed;
    FirstLineIs(a, rest);
    var s := a + [LF] + rest;
    assert s[..|a|] == a && s[|a| + 1..] == rest;
  }

  lemma {:induction false} NoLfInFlat(lits: seq<seq<byte>>, texts: seq<seq<byte>>)
    requires |lits| == |texts| && forall i | 0 <= i < |lits| :: LF !in lits[i] && LF !in texts[i]
    ensures LF !in Flat(lits, texts)
  {
    if lits != [] { NoLfInFlat(lits[1..], texts[1..]); }
  }

  lemma NoLfInClass(c: Class, text: seq<byte>)
    requires Good(c, text)
    ensures LF !in text
  {
  }

  lemma NoLfInLine(e: Entry)
    ensures LF !in LineText(e)
  {
    hide Texts, Good, InClass;
    TextsGood(e);
    var t := Texts(e);
    forall i | 0 <= i < FIELDS
      ensures LF !in Lits()[i] && LF !in t[i]
    {
      if i == 4 && e.ev.rtype >= 7 {
      } else {
        NoLfInClass(CLASSES[i], t[i]);
      }
    }
    NoLfInFlat(Lits(), t);
  }

  lemma WrongStart(lits: seq<seq<byte>>, cs: seq<Class>, s: seq<byte>)
    requires |lits| == |cs| && lits != [] && !(lits[0] <= s)
    ensures Match(lits, cs, s) == None
  {
  }

  lemma NothingUnread()
    ensures HostLine([]) == None && HostText([]) == []
  {
    hide Match, FromGroups;
    WrongStart(Lits(), CLASSES, []);
  }

  /** The notice, and what follows the last line, match nothing. */
  lemma NoticeUnread()
    ensures HostText([]) == [] && HostText(TAIL) == []
  {
    hide HostText, Match, FromGroups;
    NothingUnread();
    var t := TAIL[..|TAIL| - 1];
    assert TAIL == t + [LF] + [];
    assert LF !in t;
    OneLine(t, []);
    assert t[8] != Lits()[0][8];
    WrongStart(Lits(), CLASSES, t);
  }

  lemma {:induction false} LinesRead(es: seq<Entry>, rest: seq<byte>)
    ensures HostText(Lines(es) + rest) == Recovered(es) + HostText(rest)
  {
    hide HostText, HostLine, Line, LineText, HostOf, FirstLine;
    if es == [] {
      assert [] + rest == rest;
    } else {
      var e, front := es[|es| - 1], es[..|es| - 1];
      LinesRead(front, Line(e) + rest);
      LineRecovered(e);
      NoLfInLine(e);
      OneLine(LineText(e), rest);
      LineParts(e, rest);
      assert Lines(es) + rest == Lines(front) + (Line(e) + rest);
    }
  }

  lemma LineParts(e: Entry, rest: seq<byte>)
    ensures Line(e) + rest == LineText(e) + [LF] + rest
  {
    hide Flat;
  }

  /** From any ledger through a buffer of any size the host lists exactly the entries of the committed lines
      that have a named type, in walk order, with every field as recorded. */
  lemma HostReads(es: seq<Entry>, max: nat)
    ensures HostText(Text(es, max)) == if max <= |TAIL| then [] else Recovered(es[..Committed(es, 0, max - |TAIL| - 1)])
  {
    hide HostText, Lines, Committed, Recovered;
    NoticeUnread();
    if max > |TAIL| {
      var n := Committed(es, 0, max - |TAIL| - 1);
      LinesRead(es[..n], if n < |es| then TAIL else []);
    }
  }

  // ---- the formatter ----

  /** put_str: as much of s as leaves the last octet of the buffer free. */
  method PutStr(b: array<byte>, o: nat, s: seq<byte>) returns (r: nat)
    requires o < b.Length
    modifies b
    ensures r == o + Min(|s|, b.Length - 1 - o)
    ensures b[..r] == old(b[..o]) + s[..r - o] && b[r..] == old(b[r..])
  {
    r := o;
    while r - o < |s| && r < b.Length - 1
      invariant o <= r < b.Length && r - o <= |s|
      invariant b[..o] == old(b[..o]) && b[r..] == old(b[r..])
      invariant forall i | o <= i < r :: b[i] == s[i - o]
    {
      b[r] := s[r - o];
      r := r + 1;
    }
  }

  /** put_u64 */
  method PutU64(b: array<byte>, o: nat, v: nat) returns (r: nat)
    requires o < b.Length
    modifies b
    ensures var s := Digits(v, 10, false);
            r == o + Min(|s|, b.Length - 1 - o) && b[..r] == old(b[..o]) + s[..r - o] && b[r..] == old(b[r..])
  {
    var t := Put([], v, 10, false);
    assert [] + Digits(v, 10, false) == Digits(v, 10, false);
    r := PutStr(b, o, t);
  }

  const ZERO_X: seq<byte> := [48, 120] // "0x"

  /** The "0x" of put_hex8, each character only if it leaves the last octet free. */
  method PutZeroX(b: array<byte>, o: nat) returns (r: nat)
    requires o < b.Length
    modifies b
    ensures r == o + Min(2, b.Length - 1 - o)
    ensures b[..r] == old(b[..o]) + ZERO_X[..r - o] && b[r..] == old(b[r..])
  {
    r := o;
    if r < b.Length - 1 {
      b[r] := 48;
      r := r + 1;
    }
    if r < b.Length - 1 {
      b[r] := 120;
      r := r + 1;
    }
  }

  lemma ClipJoin(a: seq<byte>, x: seq<byte>, y: seq<byte>, room: nat)
    ensures var m := Min(|x|, room); var n := Min(|y|, room - m);
            m + n == Min(|x + y|, room) && (a + x[..m]) + y[..n] == a + (x + y)[..m + n]
  {
  }

  /** Two clipped copies one behind the other are one clipped copy of both. */
  lemma ClippedTwice(before: seq<byte>, mid: seq<byte>, now: seq<byte>, x: seq<byte>, y: seq<byte>, room: nat)
    requires |before| <= |mid| <= |now| && |mid| - |before| == Min(|x|, room)
    requires |now| - |mid| == Min(|y|, room - Min(|x|, room))
    requires mid == before + x[..|mid| - |before|] && now == mid + y[..|now| - |mid|]
    ensures |now| - |before| == Min(|x + y|, room) && now == before + (x + y)[..|now| - |before|]
  {
    ClipJoin(before, x, y, room);
  }

  /** put_hex8: "0x" and the digits, all clipped like a string. */
  method PutHex8(b: array<byte>, o: nat, v: u32) returns (r: nat)
    requires o < b.Length
    modifies b
    ensures var s := ZERO_X + Digits(v, 16, false);
            r == o + Min(|s|, b.Length - 1 - o) && b[..r] == old(b[..o]) + s[..r - o] && b[r..] == old(b[r..])
  {
    hide Digits, Min;
    ghost var s, before := Digits(v, 16, false), b[..o];
    MinBounds(2, b.Length - 1 - o);
    var q := PutZeroX(b, o);
    ghost var mid, rest := b[..q], b[q..];
    var t := Put([], v, 16, false);
    assert [] + s == s;
    r := PutStr(b, q, t);
    MinBounds(|t|, b.Length - 1 - q);
    ClippedTwice(before, mid, b[..r], ZERO_X, s, b.Length - 1 - o);
    assert b[r..] == rest[r - q..];
  }

  lemma MinBounds(a: nat, b: nat)
    ensures 0 <= Min(a, b) <= a && Min(a, b) <= b
  {
  }

  lemma Powers()
    ensures Power(10, 10) == 10_000_000_000 && Power(10, 20) == 100_000_000_000_000_000_000
    ensures Power(16, 8) == 0x1_0000_0000
  {
    assert Power(10, 5) == 100_000;
    assert Power(10, 15) == 1_000_000_000_000_000;
    assert Power(16, 4) == 0x1_0000;
  }

  /** No field of a ledger entry is long. */
  lemma TextsShort(e: Entry)
    requires e.seqno < 0x1_0000_0000_0000_0000
    ensures var t := Texts(e);
            && |t[0]| <= 20 && |t[1]| <= 20 && |t[2]| <= 10 && |t[3]| <= 7 && |t[4]| <= 5 && |t[5]| <= 10
            && |t[6]| <= 8 && |t[7]| <= 5 && |t[8]| <= 10
  {
    hide Digits;
    Powers();
    hide Power;
    DigitsShort(e.seqno, 10, false, 20);
    DigitsShort(e.tick, 10, false, 20);
    DigitsShort(e.ev.pid, 10, false, 10);
    DigitsShort(e.ev.rid, 10, false, 10);
    DigitsShort(e.ev.perms, 16, false, 8);
    DigitsShort(e.count, 10, false, 10);
  }

  /** The part of a line written after k fields. */
  ghost function Done(e: Entry, k: nat): seq<byte>
    requires k <= FIELDS
  {
    Flat(Lits()[..k], Texts(e)[..k])
  }

  lemma {:induction false} FlatSnoc(lits: seq<seq<byte>>, texts: seq<seq<byte>>, l: seq<byte>, t: seq<byte>)
    requires |lits| == |texts|
    ensures Flat(lits + [l], texts + [t]) == Flat(lits, texts) + l + t
  {
    if lits == [] {
      assert Flat([l][1..], [t][1..]) == [];
      assert [] + [l] == [l] && [] + [t] == [t];
      assert Flat([l], [t]) == l + t + [];
    } else {
      FlatSnoc(lits[1..], texts[1..], l, t);
      assert (lits + [l])[1..] == lits[1..] + [l] && (texts + [t])[1..] == texts[1..] + [t];
    }
  }

  lemma DoneStep(e: Entry, k: nat)
    requires k < FIELDS
    ensures Done(e, k + 1) == Done(e, k) + Lits()[k] + Texts(e)[k]
  {
    hide Flat, Texts, Lits;
    FlatSnoc(Lits()[..k], Texts(e)[..k], Lits()[k], Texts(e)[k]);
    assert Lits()[..k + 1] == Lits()[..k] + [Lits()[k]] && Texts(e)[..k + 1] == Texts(e)[..k] + [Texts(e)[k]];
  }

  /** A piece that fits is written whole. */
  method PutPiece(b: array<byte>, o: nat, s: seq<byte>) returns (r: nat)
    requires o + |s| < b.Length
    modifies b
    ensures r == o + |s| && b[..r] == old(b[..o]) + s
  {
    r := PutStr(b, o, s);
    assert s[..|s|] == s;
  }

  method PutDecimal(b: array<byte>, o: nat, v: nat) returns (r: nat)
    requires o + |Digits(v, 10, false)| < b.Length
    modifies b
    ensures r == o + |Digits(v, 10, false)| && b[..r] == old(b[..o]) + Digits(v, 10, false)
  {
    hide Digits;
    r := PutU64(b, o, v);
    ghost var s := Digits(v, 10, false);
    assert s[..|s|] == s;
  }

  method PutHex(b: array<byte>, o: nat, v: u32) returns (r: nat)
    requires o + 2 + |Digits(v, 16, false)| < b.Length
    modifies b
    ensures r == o + 2 + |Digits(v, 16, false)| && b[..r] == old(b[..o]) + ZERO_X + Digits(v, 16, false)
  {
    hide Digits;
    r := PutHex8(b, o, v);
    ghost var s := ZERO_X + Digits(v, 16, false);
    assert s[..|s|] == s;
    assert old(b[..o]) + s == old(b[..o]) + ZERO_X + Digits(v, 16, false);
  }

  lemma DoneNone(e: Entry)
    ensures Done(e, 0) == []
  {
  }

  /** A literal and a name after it. */
  method PutNameField(b: array<byte>, o: nat, ghost e: Entry, k: nat, text: seq<byte>) returns (r: nat)
    requires k < FIELDS && text == Texts(e)[k] && o + |Lits()[k]| + |text| < b.Length && b[..o] == Done(e, k)
    modifies b
    ensures r == o + |Lits()[k]| + |text| && b[..r] == Done(e, k + 1)
  {
    hide Done, Texts, Lits;
    DoneStep(e, k);
    r := PutPiece(b, o, Lits()[k]);
    r := PutPiece(b, r, text);
  }

  /** A literal and a decimal number after it. */
  method PutDecimalField(b: array<byte>, o: nat, ghost e: Entry, k: nat, v: nat) returns (r: nat)
    requires k < FIELDS && Digits(v, 10, false) == Texts(e)[k]
    requires o + |Lits()[k]| + |Digits(v, 10, false)| < b.Length && b[..o] == Done(e, k)
    modifies b
    ensures r == o + |Lits()[k]| + |Digits(v, 10, false)| && b[..r] == Done(e, k + 1)
  {
    hide Done, Texts, Digits, Lits;
    DoneStep(e, k);
    r := PutPiece(b, o, Lits()[k]);
    r := PutDecimal(b, r, v);
  }

  /** " perms=" and a hexadecimal number with its "0x". */
  method PutHexField(b: array<byte>, o: nat, ghost e: Entry, v: u32) returns (r: nat)
    requires Digits(v, 16, false) == Texts(e)[6]
    requires o + |Lits()[6]| + |Digits(v, 16, false)| < b.Length && b[..o] == Done(e, 6)
    modifies b
    ensures r == o + |Lits()[6]| + |Digits(v, 16, false)| && b[..r] == Done(e, 7)
  {
    hide Done, Texts, Digits;
    DoneStep(e, 6);
    ghost var before := b[..o];
    PermsParts(before);
    hide Lits;
    r := PutPiece(b, o, PERMS);
    r := PutHex(b, r, v);
  }

  const PERMS: seq<byte> := [32, 112, 101, 114, 109, 115, 61] // " perms="

  lemma PermsParts(before: seq<byte>)
    ensures |Lits()[6]| == |PERMS| + 2 && before + Lits()[6] == before + PERMS + ZERO_X
  {
    assert Lits()[6] == PERMS + ZERO_X;
  }

  lemma LitsShort()
    ensures |Lits()[0]| == 11 && |Lits()[1]| == 6 && |Lits()[2]| == 5 && |Lits()[3]| == 6 && |Lits()[4]| == 5
    ensures |Lits()[5]| == 1 && |Lits()[6]| == 9 && |Lits()[7]| == 9 && |Lits()[8]| == 7
  {
  }

  /** format_entry up to the kind. */
  method FormatWho(b: array<byte>, e: Entry) returns (o: nat)
    requires b.Length == 200 && e.seqno < 0x1_0000_0000_0000_0000
    modifies b
    ensures o <= 85 && b[..o] == Done(e, 4)
  {
    LitsShort();
    TextsShort(e);
    hide Digits, Done, KindName, TypeName, VerdictName, Flat, Line, Lits;
    DoneNone(e);
    o := PutDecimalField(b, 0, e, 0, e.seqno);
    o := PutDecimalField(b, o, e, 1, e.tick);
    o := PutDecimalField(b, o, e, 2, e.ev.pid);
    o := PutNameField(b, o, e, 3, KindName(e.ev.kind));
  }

  /** format_entry: the resource. */
  method FormatWhat(b: array<byte>, o: nat, e: Entry) returns (r: nat)
    requires b.Length == 200 && e.seqno < 0x1_0000_0000_0000_0000 && o <= 85 && b[..o] == Done(e, 4)
    modifies b
    ensures r <= 106 && b[..r] == Done(e, 6)
  {
    LitsShort();
    TextsShort(e);
    hide Digits, Done, KindName, TypeName, VerdictName, Flat, Line, Lits;
    r := PutNameField(b, o, e, 4, TypeName(e.ev.rtype));
    if e.ev.rid == AUDIT_RESOURCE_ANY {
      r := PutNameField(b, r, e, 5, [STAR]);
    } else {
      r := PutDecimalField(b, r, e, 5, e.ev.rid);
    }
  }

  /** format_entry on the scratch line, which is long enough for every entry. */
  method FormatEntry(b: array<byte>, e: Entry) returns (o: nat)
    requires b.Length == 200 && e.seqno < 0x1_0000_0000_0000_0000
    modifies b
    ensures o <= 156 && b[..o] == Line(e)
  {
    LitsShort();
    TextsShort(e);
    hide Digits, Done, KindName, TypeName, VerdictName, Flat, Line, Lits, RidText;
    o := FormatWho(b, e);
    o := FormatWhat(b, o, e);
    o := PutHexField(b, o, e, e.ev.perms);
    o := PutNameField(b, o, e, 7, VerdictName(e.ev.verdict));
    o := PutDecimalField(b, o, e, 8, e.count);
    o := PutPiece(b, o, [CR, LF]);
    DoneAll(e);
  }

  lemma DoneAll(e: Entry)
    ensures Done(e, FIELDS) + [CR, LF] == Line(e)
  {
    hide Flat, Texts, Lits;
    assert Lits()[..FIELDS] == Lits() && Texts(e)[..FIELDS] == Texts(e);
  }

  /** audit_put_line: the whole line or nothing. */
  method AuditPutLine(buf: array<byte>, o: nat, budget: nat, line: array<byte>, len: nat) returns (r: Option<nat>)
    requires len <= line.Length && budget <= buf.Length && buf != line
    modifies buf
    ensures r == if o + len >= budget then None else Some(o + len)
    ensures r.None? ==> buf[..] == old(buf[..])
    ensures r.Some? ==> buf[..o + len] == old(buf[..o]) + line[..len] && buf[o + len..] == old(buf[o + len..])
  {
    if o + len >= budget {
      return None;
    }
    CopyBytes(buf, o, line[..len]);
    return Some(o + len);
  }

  /** One iteration of the walk: the entry formatted on the scratch line, then committed if it fits. */
  method PutEntry(buf: array<byte>, o: nat, budget: nat, e: Entry) returns (r: Option<nat>)
    requires budget <= buf.Length && e.seqno < 0x1_0000_0000_0000_0000
    modifies buf
    ensures r == if o + |Line(e)| >= budget then None else Some(o + |Line(e)|)
    ensures r.None? ==> buf[..] == old(buf[..])
    ensures r.Some? ==> buf[..o + |Line(e)|] == old(buf[..o]) + Line(e)
  {
    hide Line;
    var line := new byte[200];
    var len := FormatEntry(line, e);
    assert len == |Line(e)|;
    r := AuditPutLine(buf, o, budget, line, len);
  }

  /** The loop of audit_format over the ledger's walk. */
  method PutEntries(l: Ledger, buf: array<byte>, budget: nat) returns (o: nat, truncated: bool)
    requires l.Valid() && l.ring as object != buf && budget <= buf.Length
    requires forall e | e in l.Contents() :: e.seqno < 0x1_0000_0000_0000_0000
    modifies buf
    ensures var es := l.Contents(); var n := Committed(es, 0, budget);
            o <= budget && o == |Lines(es[..n])| && buf[..o] == Lines(es[..n]) && (truncated <==> n < |es|)
  {
    hide Line, Lines, Committed, Entries;
    var cap := l.ring.Length;
    var live := if l.total < cap then l.total else cap;
    var start := if l.total <= cap then 0 else l.total % cap;
    ghost var es := l.Contents();
    ghost var n := Committed(es, 0, budget);
    assert forall k | 0 <= k < live :: es[k] == l.ring[(start + k) % cap];
    hide Ledger.Valid, Ledger.Contents, Window;
    o := 0;
    var i := 0;
    truncated := false;
    NoLines(es);
    while i < live
      invariant i <= live == |es|
      invariant o <= budget && o == |Lines(es[..i])| && buf[..o] == Lines(es[..i])
      invariant n == Committed(es, i, budget)
    {
      CommittedStep(es, i, budget);
      LinesStep(es, i);
      assert es[i] in es;
      var r := PutEntry(buf, o, budget, l.ring[(start + i) % cap]);
      if r.None? {
        truncated := true;
        break;
      }
      o, i := r.value, i + 1;
    }
    if !truncated { CommittedStep(es, i, budget); }
  }

  /** audit_format: the ledger's walk as text, ended by a zero octet. */
  method AuditFormat(l: Ledger, buf: array<byte>) returns (o: nat)
    requires l.Valid() && l.ring as object != buf
    requires forall e | e in l.Contents() :: e.seqno < 0x1_0000_0000_0000_0000
    modifies buf
    ensures var t := Text(l.Contents(), buf.Length);
            o == |t| && if buf.Length <= |TAIL| then buf[..] == old(buf[..])
                        else o < buf.Length && buf[..] == t + [0] + buf[o + 1..]
  {
    hide *;
    ghost var es := l.Contents();
    TextFits(es, buf.Length);
    if buf.Length < |TAIL| + 1 {
      return 0;
    }
    var truncated;
    o, truncated := PutEntries(l, buf, buf.Length - |TAIL| - 1);
    o := Finish(buf, o, truncated);
  }

  /** The end of audit_format: the notice if lines were dropped, and the terminating zero. */
  method Finish(buf: array<byte>, o: nat, truncated: bool) returns (r: nat)
    requires o + |TAIL| < buf.Length
    modifies buf
    ensures r < buf.Length && buf[..] == old(buf[..o]) + (if truncated then TAIL else []) + [0] + buf[r + 1..]
    ensures r == o + if truncated then |TAIL| else 0
  {
    r := o;
    if truncated {
      r := PutPiece(buf, r, TAIL);
    }
    buf[r] := 0;
  }

  lemma CommittedStep(es: seq<Entry>, k: nat, budget: nat)
    requires k <= |es|
    ensures Committed(es, k, budget)
            == if k == |es| || |Lines(es[..k])| + |Line(es[k])| >= budget then k else Committed(es, k + 1, budget)
  {
  }
}
