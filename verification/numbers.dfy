/** Python's `int(text)` for base-10 strings, the decimal rendering of an
    integer, and the dotted thousands grouping the storefront prints vote
    counts with. */
module Numbers {
  import opened Wrappers
  import opened Text

  predicate IsDigit(c: char) {
    '0' <= c <= '9'
  }

  predicate AllDigits(s: string) {
    forall i :: 0 <= i < |s| ==> IsDigit(s[i])
  }

  function DigitValue(c: char): nat
    requires IsDigit(c)
  {
    c as int - '0' as int
  }

  function DigitChar(d: nat): (c: char)
    requires d < 10
    ensures IsDigit(c) && DigitValue(c) == d
  {
    ('0' as int + d) as char
  }

  /** The value of a digit string read most significant digit first. */
  function Value(s: string): nat
    requires AllDigits(s)
  {
    if |s| == 0 then 0 else Value(s[..|s| - 1]) * 10 + DigitValue(s[|s| - 1])
  }

  function Pow10(k: nat): (r: nat)
    ensures r >= 1
  {
    if k == 0 then 1 else 10 * Pow10(k - 1)
  }

  /** Appending digits shifts the value of the prefix left. */
  lemma {:induction false} ValueConcat(a: string, b: string)
    requires AllDigits(a) && AllDigits(b)
    ensures AllDigits(a + b)
    ensures Value(a + b) == Value(a) * Pow10(|b|) + Value(b)
  {
    if |b| == 0 {
      assert a + b == a;
    } else {
      var b' := b[..|b| - 1];
      var d := DigitValue(b[|b| - 1]);
      assert (a + b)[..|a + b| - 1] == a + b';
      assert (a + b)[|a + b| - 1] == b[|b| - 1];
      ValueConcat(a, b');
      assert Value(a + b) == Value(a + b') * 10 + d;
      assert Value(b) == Value(b') * 10 + d;
      Distribute(Value(a), Pow10(|b'|), Value(b'), d);
    }
  }

  lemma Distribute(x: int, p: int, y: int, d: int)
    ensures (x * p + y) * 10 + d == x * (p * 10) + (y * 10 + d)
  {
  }

  /** The body of a base-10 integer literal as `int()` accepts it: digits,
      optionally grouped by single underscores between digits. */
  predicate DigitGroups(s: string) {
    && |s| > 0
    && IsDigit(s[0])
    && IsDigit(s[|s| - 1])
    && (forall i :: 0 <= i < |s| ==> IsDigit(s[i]) || s[i] == '_')
    && (forall i :: 0 <= i < |s| - 1 ==> NotDoubled(s, i))
  }

  /** The characters at `i` and `i + 1` are not both underscores. */
  predicate NotDoubled(s: string, i: nat)
    requires i + 1 < |s|
  {
    !(s[i] == '_' && s[i + 1] == '_')
  }

  /** The value of a digit-group string: the underscores carry no value. */
  function GroupsValue(s: string): nat
    requires DigitGroups(s)
  {
    var digits := Remove(s, '_');
    RemoveKeeps(s, '_');
    assert AllDigits(digits) by {
      forall i | 0 <= i < |digits| ensures IsDigit(digits[i]) {
        assert digits[i] in s && digits[i] != '_';
      }
    }
    Value(digits)
  }

  /** A string of digits contains no non-digit character. */
  lemma DigitsExclude(s: string, c: char)
    requires AllDigits(s) && !IsDigit(c)
    ensures c !in s
  {
  }

  /** The characters `int()` skips around a literal. CPython first turns
      non-ASCII whitespace into a space and leaves ASCII untouched, then skips
      only tab, line feed, vertical tab, form feed, carriage return and space;
      the separator controls U+001C..U+001F, which `str.isspace` counts, are
      therefore not skipped. */
  predicate IntSpace(c: char) {
    IsSpace(c) && !(0x1C <= c as int <= 0x1F)
  }

  /** CPython's default `sys.int_max_str_digits`: a base-10 conversion of a
      literal with more digits than this raises `ValueError`. */
  const MaxStrDigits: nat := 4300

  /** The number of digits of a digit-group string; underscores do not count. */
  function DigitCount(s: string): nat {
    |Remove(s, '_')|
  }

  /** Digit groups `int()` converts: well formed and within the digit limit. */
  predicate Body(s: string) {
    DigitGroups(s) && DigitCount(s) <= MaxStrDigits
  }

  predicate Signed(t: string) {
    |t| > 0 && (t[0] == '+' || t[0] == '-')
  }

  /** The trimmed texts `int()` accepts: digit groups with an optional sign. */
  predicate Literal(t: string) {
    Body(t) || (Signed(t) && Body(t[1..]))
  }

  /** `int()` applied to text whose surrounding blanks are already skipped. */
  function ParseStripped(t: string): Option<int> {
    if Signed(t) then
      var body := t[1..];
      if Body(body) then
        var n: int := GroupsValue(body);
        Some(if t[0] == '-' then -n else n)
      else
        None
    else if Body(t) then
      Some(GroupsValue(t))
    else
      None
  }

  /** Python's `int(text)`: blanks around the literal are skipped, then one
      optional sign and digit groups of at most `MaxStrDigits` digits; anything
      else is a `ValueError` (`None`). */
  function ParseInt(text: string): Option<int> {
    ParseStripped(Trim(text, IntSpace))
  }

  /** The grammar `int()` accepts, both ways, and the value of each form: the
      digit groups' value, negated after `-`. */
  lemma ParseIntGrammar(text: string)
    ensures var t := Trim(text, IntSpace); ParseInt(text).Some? <==> Literal(t)
    ensures var t := Trim(text, IntSpace); Body(t) ==> ParseInt(text) == Some(GroupsValue(t))
    ensures var t := Trim(text, IntSpace);
      Signed(t) && t[0] == '+' && Body(t[1..]) ==> ParseInt(text) == Some(GroupsValue(t[1..]))
    ensures var t := Trim(text, IntSpace);
      Signed(t) && t[0] == '-' && Body(t[1..]) ==> ParseInt(text) == Some(-(GroupsValue(t[1..]) as int))
  {
    StrippedGrammar(Trim(text, IntSpace));
  }

  lemma StrippedGrammar(t: string)
    ensures ParseStripped(t).Some? <==> Literal(t)
    ensures Body(t) ==> ParseStripped(t) == Some(GroupsValue(t))
    ensures Signed(t) && t[0] == '+' && Body(t[1..]) ==> ParseStripped(t) == Some(GroupsValue(t[1..]))
    ensures Signed(t) && t[0] == '-' && Body(t[1..]) ==> ParseStripped(t) == Some(-(GroupsValue(t[1..]) as int))
  {
    if Signed(t) {
      assert !IsDigit(t[0]) && !Body(t);
    }
  }

  /** Python's `str(n)` for a natural number. */
  function ShowNat(n: nat): (r: string)
    ensures |r| > 0 && AllDigits(r)
    ensures Value(r) == n
  {
    if n < 10 then [DigitChar(n)]
    else
      var r := ShowNat(n / 10) + [DigitChar(n % 10)];
      assert r[..|r| - 1] == ShowNat(n / 10);
      r
  }

  /** Python's `str(i)` for an integer. */
  function ShowInt(i: int): string {
    if i < 0 then "-" + ShowNat(-i) else ShowNat(i)
  }

  /** A plain non-empty digit string parses to its decimal value, unless it
      has more digits than the conversion limit allows. */
  lemma ParseDigits(d: string)
    requires |d| > 0 && AllDigits(d)
    ensures ParseInt(d) == if |d| <= MaxStrDigits then Some(Value(d)) else None
  {
    assert IsDigit(d[0]) && IsDigit(d[|d| - 1]);
    TrimNoOp(d, IntSpace);
    DigitsStripped(d);
  }

  /** Plain digits without surrounding blanks. */
  lemma DigitsStripped(d: string)
    requires |d| > 0 && AllDigits(d)
    ensures ParseStripped(d) == if |d| <= MaxStrDigits then Some(Value(d)) else None
  {
    DigitsBody(d);
    assert !Signed(d);
  }

  /** A minus sign before a non-empty digit string negates its value, within
      the same limit. */
  lemma ParseNegative(t: string)
    requires |t| > 1 && t[0] == '-' && AllDigits(t[1..])
    ensures ParseInt(t) == if |t| - 1 <= MaxStrDigits then Some(-(Value(t[1..]) as int)) else None
  {
    assert IsDigit(t[1..][|t| - 2]);
    TrimNoOp(t, IntSpace);
    NegativeDigits(t);
  }

  /** A minus sign followed by plain digits. */
  lemma NegativeDigits(t: string)
    requires |t| > 1 && t[0] == '-' && AllDigits(t[1..])
    ensures ParseStripped(t) == if |t| - 1 <= MaxStrDigits then Some(-(Value(t[1..]) as int)) else None
  {
    DigitsBody(t[1..]);
    MinusLiteral(t);
  }

  /** After a minus sign, `int()` negates the body or refuses it. */
  lemma MinusLiteral(t: string)
    requires |t| > 0 && t[0] == '-'
    ensures ParseStripped(t) == if Body(t[1..]) then Some(-(GroupsValue(t[1..]) as int)) else None
  {
    assert !IsDigit(t[0]) && !DigitGroups(t);
  }

  /** Plain digits are digit groups with as many digits as characters. */
  lemma DigitsBody(d: string)
    requires |d| > 0 && AllDigits(d)
    ensures DigitGroups(d) && DigitCount(d) == |d| && GroupsValue(d) == Value(d)
  {
    assert IsDigit(d[0]) && IsDigit(d[|d| - 1]);
    DigitsExclude(d, '_');
  }

  /** `int(str(i)) == i` for every integer whose rendering is within the
      conversion limit, negative ones included; beyond it `int()` refuses. */
  lemma ParseShowInt(i: int)
    ensures var d := ShowNat(if i < 0 then -i else i);
      ParseInt(ShowInt(i)) == if |d| <= MaxStrDigits then Some(i) else None
  {
    if i < 0 {
      var t := ShowInt(i);
      assert t[1..] == ShowNat(-i);
      ParseNegative(t);
    } else {
      ParseDigits(ShowNat(i));
    }
  }

  /** `int()` accepts a sign, underscores between digits and surrounding
      whitespace. */
  lemma ParseIntAccepts()
    ensures ParseInt(" +1_000\n") == Some(1000)
  {
    AcceptsTrim();
    AcceptsBody();
    var t := "+1_000";
    assert t[1..] == "1_000";
    assert Signed(t) && t[0] == '+';
    StrippedGrammar(t);
  }

  lemma AcceptsTrim()
    ensures Trim(" +1_000\n", IntSpace) == "+1_000"
  {
    var s := " +1_000\n";
    assert s[1..7] == "+1_000";
    assert s[..1] == " " && s[7..] == "\n";
    assert TrimBounds(s, IntSpace, 1, 7);
    TrimUnique(s, IntSpace, 1, 7);
  }

  lemma AcceptsBody()
    ensures DigitGroups("1_000") && Body("1_000") && GroupsValue("1_000") == 1000
  {
    var b := "1_000";
    assert forall i :: 0 <= i < |b| - 1 ==> NotDoubled(b, i);
    assert Remove("000", '_') == "000";
    assert Remove(b, '_') == "1000";
    ValueThousand();
  }

  lemma ValueThousand()
    ensures AllDigits("1000") && Value("1000") == 1000
  {
    var s := "1000";
    assert s[..3] == "100" && s[..3][..2] == "10" && s[..3][..2][..1] == "1";
    assert Value("1") == 1;
  }

  /** `int()` refuses a trailing or doubled underscore, a lone sign and a
      leading separator control. */
  lemma ParseIntRejects()
    ensures ParseInt("1_") == None
    ensures ParseInt("1__0") == None
    ensures ParseInt("+") == None
    ensures ParseInt("\U{1C}1") == None
  {
    RejectsTrailingUnderscore();
    RejectsDoubledUnderscore();
    RejectsLoneSign();
    RejectsSeparator();
  }

  lemma RejectsTrailingUnderscore()
    ensures ParseInt("1_") == None
  {
    TrimNoOp("1_", IntSpace);
    StrippedGrammar("1_");
  }

  lemma RejectsDoubledUnderscore()
    ensures ParseInt("1__0") == None
  {
    TrimNoOp("1__0", IntSpace);
    assert !NotDoubled("1__0", 1);
    StrippedGrammar("1__0");
  }

  lemma RejectsLoneSign()
    ensures ParseInt("+") == None
  {
    TrimNoOp("+", IntSpace);
    assert "+"[1..] == [];
    StrippedGrammar("+");
  }

  lemma RejectsSeparator()
    ensures ParseInt("\U{1C}1") == None
  {
    TrimNoOp("\U{1C}1", IntSpace);
    StrippedGrammar("\U{1C}1");
  }

  /** Three digits with leading zeros, as in the groups after a separator. */
  function Pad3(d: nat): (r: string)
    requires d < 1000
    ensures |r| == 3 && AllDigits(r) && Value(r) == d
  {
    var r := [DigitChar(d / 100), DigitChar(d / 10 % 10), DigitChar(d % 10)];
    assert r[..2][..1] == r[..1] && r[..1][..0] == [];
    assert Value(r[..1]) == d / 100;
    assert Value(r[..2]) == d / 100 * 10 + d / 10 % 10;
    assert Value(r) == (d / 100 * 10 + d / 10 % 10) * 10 + d % 10;
    var q := d / 10;
    assert d == q * 10 + d % 10;
    assert q / 10 == d / 100;
    assert q == q / 10 * 10 + q % 10;
    r
  }

  /** `n` written with a `.` between each group of three digits, the way the
      Brazilian storefront prints vote counts ("1.234"). */
  function Grouped(n: nat): string
    decreases n
  {
    if n < 1000 then ShowNat(n) else Grouped(n / 1000) + "." + Pad3(n % 1000)
  }

  /** One separator step: deleting the dots of `Grouped(n)` is deleting those
      of the leading groups and then appending the last three digits. */
  lemma GroupedStep(n: nat)
    requires n >= 1000
    ensures Remove(Grouped(n), '.') == Remove(Grouped(n / 1000), '.') + Pad3(n % 1000)
  {
    var hi := Grouped(n / 1000);
    var lo := Pad3(n % 1000);
    assert Grouped(n) == hi + ['.'] + lo;
    DigitsExclude(lo, '.');
    RemoveSeparator(hi, lo, '.');
  }

  /** Deleting the separators of a grouped number leaves its plain digits. */
  lemma {:induction false} GroupedDigits(n: nat)
    ensures var d := Remove(Grouped(n), '.'); |d| > 0 && AllDigits(d) && Value(d) == n
    decreases n
  {
    if n < 1000 {
      DigitsExclude(ShowNat(n), '.');
    } else {
      GroupedDigits(n / 1000);
      GroupedStep(n);
      var d := Remove(Grouped(n / 1000), '.');
      var lo := Pad3(n % 1000);
      ValueConcat(d, lo);
      assert Pow10(|lo|) == 1000;
      DivMod1000(n, Value(d), Value(lo));
    }
  }

  lemma DivMod1000(n: nat, hi: nat, lo: nat)
    requires hi == n / 1000 && lo == n % 1000
    ensures hi * 1000 + lo == n
  {
  }

}
