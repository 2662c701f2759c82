/**
 The interface list of example/common/cli_arg_parse.c as a language:
 comma-separated entries, each a name and optionally `@address/masklen`.
 */
module InterfaceSyntax {

  datatype Option<T> = None | Some(value: T)

  datatype Address = Address(text: string, masklen: int)

  datatype Entry = Entry(name: string, address: Option<Address>)

  function FindFrom(s: string, c: char, from: nat): (i: nat)
    requires from <= |s|
    ensures from <= i <= |s| && (i < |s| ==> s[i] == c) && forall k :: from <= k < i ==> s[k] != c
    decreases |s| - from
  {
    if from == |s| || s[from] == c then from else FindFrom(s, c, from + 1)
  }

  /** Position of the first `c`, or the length of `s`. */
  function Find(s: string, c: char): (i: nat)
    ensures i <= |s| && (i < |s| ==> s[i] == c) && forall k :: 0 <= k < i ==> s[k] != c
  {
    FindFrom(s, c, 0)
  }

  lemma FindUnique(s: string, c: char, i: nat)
    requires i <= |s| && (i < |s| ==> s[i] == c) && forall k :: 0 <= k < i ==> s[k] != c
    ensures Find(s, c) == i
  {
  }

  function Segments(s: string): (r: seq<string>)
    ensures |r| > 0
    decreases |s|
  {
    var i := Find(s, ',');
    if i == |s| then [s] else [s[..i]] + Segments(s[i + 1..])
  }

  function Join(segments: seq<string>): string
    requires segments != []
  {
    if |segments| == 1 then segments[0] else segments[0] + "," + Join(segments[1..])
  }

  /** The segments are the pieces between the commas, and nothing else is lost. */
  lemma {:induction false} JoinSegments(s: string)
    ensures Join(Segments(s)) == s && forall x | x in Segments(s) :: ',' !in x
    decreases |s|
  {
    var i := Find(s, ',');
    if i < |s| {
      var rest := Segments(s[i + 1..]);
      JoinSegments(s[i + 1..]);
      assert Segments(s)[1..] == rest;
      assert s == s[..i] + "," + s[i + 1..];
    }
  }

  predicate IsSpace(c: char) {
    c == ' ' || '\t' <= c <= '\r'
  }

  predicate IsDigit(c: char) {
    '0' <= c <= '9'
  }

  function Digits(s: string, value: nat): nat {
    if s == [] || !IsDigit(s[0]) then value else Digits(s[1..], 10 * value + (s[0] - '0') as nat)
  }

  /** `atoi`: blanks, a sign, digits, and whatever follows is ignored. */
  function Atoi(s: string): int {
    if s == [] then 0
    else if IsSpace(s[0]) then Atoi(s[1..])
    else if s[0] == '-' then -(Digits(s[1..], 0) as int)
    else if s[0] == '+' then Digits(s[1..], 0)
    else Digits(s, 0)
  }

  /** The number a string of digits stands for. */
  function Value(digits: string): nat
    requires forall c | c in digits :: IsDigit(c)
  {
    if digits == [] then 0
    else
      assert IsDigit(digits[|digits| - 1]);
      10 * Value(digits[..|digits| - 1]) + (digits[|digits| - 1] - '0') as nat
  }

  lemma {:induction false} DigitsSnoc(s: string, d: char, value: nat)
    requires (forall c | c in s :: IsDigit(c)) && IsDigit(d)
    ensures Digits(s + [d], value) == 10 * Digits(s, value) + (d - '0') as nat
    decreases |s|
  {
    if s == [] {
      assert ([d])[1..] == [];
      assert s + [d] == [d];
    } else {
      assert s[0] in s;
      assert (s + [d])[1..] == s[1..] + [d];
      DigitsSnoc(s[1..], d, 10 * value + (s[0] - '0') as nat);
    }
  }

  lemma {:induction false} DigitsValue(digits: string)
    requires forall c | c in digits :: IsDigit(c)
    ensures Digits(digits, 0) == Value(digits)
  {
    if digits != [] {
      var init, d := digits[..|digits| - 1], digits[|digits| - 1];
      DigitsValue(init);
      DigitsSnoc(init, d, 0);
      assert init + [d] == digits;
    }
  }

  /** `s` is digits and then nothing or something else. */
  predicate DigitsFirst(s: string, digits: string, rest: string) {
    s == digits + rest && (forall c | c in digits :: IsDigit(c)) && (rest != [] ==> !IsDigit(rest[0]))
  }

  /** Only the digits in front count. */
  lemma {:induction false} DigitsOf(s: string, value: nat) returns (digits: string, rest: string)
    ensures DigitsFirst(s, digits, rest) && Digits(s, value) == Digits(digits, value)
    decreases |s|
  {
    if s == [] || !IsDigit(s[0]) {
      digits, rest := [], s;
    } else {
      digits, rest := DigitsOf(s[1..], 10 * value + (s[0] - '0') as nat);
      var more := [s[0]] + digits;
      assert more[1..] == digits && more + rest == s;
      digits := more;
    }
  }

  /** The parts `atoi` sees: blanks, a sign or none, digits, and the rest. */
  predicate AtoiParts(s: string, blanks: string, sign: string, digits: string, rest: string) {
    && s == blanks + (sign + (digits + rest)) && (forall c | c in blanks :: IsSpace(c))
    && (sign == "" || sign == "-" || sign == "+") && DigitsFirst(digits + rest, digits, rest)
    && (sign == "" && digits == "" && rest != "" ==> !IsSpace(rest[0]) && rest[0] != '-' && rest[0] != '+')
  }

  /** Every string has these parts, and the number is that of its digits with its sign. */
  lemma {:induction false} AtoiMeans(s: string) returns (blanks: string, sign: string, digits: string, rest: string)
    ensures AtoiParts(s, blanks, sign, digits, rest)
    ensures Atoi(s) == if sign == "-" then -(Value(digits) as int) else Value(digits)
    decreases |s|
  {
    if s != [] && IsSpace(s[0]) {
      blanks, sign, digits, rest := AtoiMeans(s[1..]);
      assert s == [s[0]] + s[1..];
      assert s == ([s[0]] + blanks) + (sign + (digits + rest));
      blanks := [s[0]] + blanks;
    } else {
      blanks := "";
      sign := if s != [] && (s[0] == '-' || s[0] == '+') then [s[0]] else "";
      digits, rest := DigitsOf(s[|sign|..], 0);
      DigitsValue(digits);
      assert s == blanks + (sign + (digits + rest));
    }
  }

  /** An address without a mask is an error. */
  function ParseEntry(s: string): Option<Entry> {
    var at := Find(s, '@');
    if at == |s| then Some(Entry(s, None))
    else
      var addr := s[at + 1..];
      var slash := Find(addr, '/');
      if slash == |addr| then None
      else Some(Entry(s[..at], Some(Address(addr[..slash], Atoi(addr[slash + 1..])))))
  }

  function ParseSegments(segments: seq<string>): Option<seq<Entry>> {
    if segments == [] then Some([])
    else
      var last := ParseEntry(segments[|segments| - 1]);
      var init := ParseSegments(segments[..|segments| - 1]);
      if init.None? || last.None? then None else Some(init.value + [last.value])
  }

  /** The meaning of an argument: the empty string is refused. */
  function Parse(s: string): Option<seq<Entry>> {
    if s == "" then None else ParseSegments(Segments(s))
  }

  /** The first separator splits a joined string where it was joined. */
  lemma SplitAtFirst(a: string, c: char, b: string)
    requires c !in a
    ensures var s := a + [c] + b; Find(s, c) == |a| && s[..|a|] == a && s[|a| + 1..] == b
  {
    var s := a + [c] + b;
    assert forall k :: 0 <= k < |a| ==> s[k] == a[k] && a[k] in a;
    FindUnique(s, c, |a|);
  }

  /** Up to the first '@' a segment is the name, up to the first '/' behind it the address, then comes the mask. */
  lemma EntryMeans(name: string, address: string, mask: string)
    requires '@' !in name
    ensures ParseEntry(name) == Some(Entry(name, None))
    ensures '/' !in address ==>
      && ParseEntry(name + "@" + (address + "/" + mask)) == Some(Entry(name, Some(Address(address, Atoi(mask)))))
      && ParseEntry(name + "@" + address) == None
  {
    FindUnique(name, '@', |name|);
    if '/' !in address {
      SplitAtFirst(name, '@', address + "/" + mask);
      SplitAtFirst(name, '@', address);
      SplitAtFirst(address, '/', mask);
      FindUnique(address, '/', |address|);
    }
  }

  /** Every segment with an '@' has a '/' after the first one. */
  predicate EntryOk(s: string) {
    '@' in s ==> '/' in s[Find(s, '@')..]
  }

  lemma EntryOkParses(s: string)
    ensures ParseEntry(s).Some? <==> EntryOk(s)
  {
    var at := Find(s, '@');
    if at < |s| {
      var addr := s[at + 1..];
      assert s[at..] == ['@'] + addr;
      if '/' in addr {
        var k :| 0 <= k < |addr| && addr[k] == '/';
        assert Find(addr, '/') <= k;
      }
    }
  }

  lemma {:induction false} SegmentsOkParse(segments: seq<string>)
    ensures ParseSegments(segments).Some? <==> forall x | x in segments :: EntryOk(x)
    ensures ParseSegments(segments).Some? ==> |ParseSegments(segments).value| == |segments|
  {
    if segments != [] {
      var init, last := segments[..|segments| - 1], segments[|segments| - 1];
      assert segments == init + [last];
      SegmentsOkParse(init);
      EntryOkParses(last);
    }
  }

  /** Parsing succeeds exactly on non-empty lists whose segments are in order. */
  lemma ParsesExactly(s: string)
    ensures Parse(s).Some? <==> s != "" && forall x | x in Segments(s) :: EntryOk(x)
  {
    SegmentsOkParse(Segments(s));
  }

  // ----- printing

  function Decimal(n: nat): (r: string)
    ensures |r| > 0 && forall c | c in r :: IsDigit(c)
  {
    var d := ['0' + (n % 10) as char];
    if n < 10 then d else Decimal(n / 10) + d
  }

  function PrintMask(n: int): string {
    if n < 0 then "-" + Decimal(-n) else Decimal(n)
  }

  function PrintEntry(e: Entry): string {
    match e.address
    case None => e.name
    case Some(a) => e.name + "@" + a.text + "/" + PrintMask(a.masklen)
  }

  function Print(entries: seq<Entry>): string
    requires entries != []
  {
    if |entries| == 1 then PrintEntry(entries[0]) else PrintEntry(entries[0]) + "," + Print(entries[1..])
  }

  predicate Printable(e: Entry) {
    && ',' !in e.name && '@' !in e.name
    && (e.address.Some? ==> ',' !in e.address.value.text && '/' !in e.address.value.text)
  }

  lemma {:induction false} DigitsDecimal(n: nat)
    ensures Digits(Decimal(n), 0) == n
  {
    var d := '0' + (n % 10) as char;
    if n < 10 {
      DigitsSnoc([], d, 0);
      assert [] + [d] == Decimal(n);
    } else {
      DigitsDecimal(n / 10);
      DigitsSnoc(Decimal(n / 10), d, 0);
    }
  }

  lemma AtoiPrint(n: int)
    ensures Atoi(PrintMask(n)) == n
  {
    var m: nat := if n < 0 then -n else n;
    DigitsDecimal(m);
    assert Decimal(m)[0] in Decimal(m);
    if n < 0 {
      assert ("-" + Decimal(m))[1..] == Decimal(m);
    }
  }

  lemma ParsePrintedEntry(e: Entry)
    requires Printable(e)
    ensures ParseEntry(PrintEntry(e)) == Some(e)
  {
    if e.address.None? {
      EntryMeans(e.name, "", "");
    } else {
      var a := e.address.value;
      EntryMeans(e.name, a.text, PrintMask(a.masklen));
      AtoiPrint(a.masklen);
      assert PrintEntry(e) == e.name + "@" + (a.text + "/" + PrintMask(a.masklen));
    }
  }

  lemma NoCommaPrinted(e: Entry)
    requires Printable(e)
    ensures ',' !in PrintEntry(e)
  {
    if e.address.Some? {
      assert ',' !in PrintMask(e.address.value.masklen);
    }
  }

  function Printed(entries: seq<Entry>): seq<string> {
    if entries == [] then [] else Printed(entries[..|entries| - 1]) + [PrintEntry(entries[|entries| - 1])]
  }

  lemma {:induction false} PrintedHead(entries: seq<Entry>)
    requires entries != []
    ensures Printed(entries) == [PrintEntry(entries[0])] + Printed(entries[1..])
  {
    if |entries| == 1 {
      assert entries[..0] == [] && entries[1..] == [];
    } else {
      PrintedHead(entries[..|entries| - 1]);
      assert entries[1..][..|entries| - 2] == entries[..|entries| - 1][1..];
    }
  }

  lemma {:induction false} SegmentsOfPrint(entries: seq<Entry>)
    requires entries != [] && forall e | e in entries :: Printable(e)
    ensures Segments(Print(entries)) == Printed(entries)
  {
    var s, head := Print(entries), PrintEntry(entries[0]);
    NoCommaPrinted(entries[0]);
    PrintedHead(entries);
    if |entries| == 1 {
      FindUnique(s, ',', |s|);
      assert entries[1..] == [];
    } else {
      SplitAtFirst(head, ',', Print(entries[1..]));
      SegmentsOfPrint(entries[1..]);
    }
  }

  lemma {:induction false} ParsePrinted(entries: seq<Entry>)
    requires forall e | e in entries :: Printable(e)
    ensures ParseSegments(Printed(entries)) == Some(entries)
  {
    if entries != [] {
      var init, last := entries[..|entries| - 1], entries[|entries| - 1];
      assert entries == init + [last];
      ParsePrinted(init);
      ParsePrintedEntry(last);
      assert Printed(entries)[..|Printed(entries)| - 1] == Printed(init);
    }
  }

  /** Parsing a printed list gives the list back. */
  lemma RoundTrip(entries: seq<Entry>)
    requires entries != [] && (forall e | e in entries :: Printable(e))
    ensures Parse(Print(entries)) == if Print(entries) == "" then None else Some(entries)
  {
    SegmentsOfPrint(entries);
    ParsePrinted(entries);
  }
}
