/** The parts of Python's text handling the footer values go through: `str.split(',')`,
    and which strings `int()` and `float()` accept (with the integer `int()` yields).
    Only ASCII whitespace and ASCII digits are covered. */
module PyText {
  import opened Results

  /** The ASCII characters Python treats as whitespace. */
  predicate IsSpace(c: char)
  {
    c == ' ' || (9 <= c as int <= 13) || (28 <= c as int <= 31)
  }

  predicate IsDigit(c: char)
  {
    '0' <= c <= '9'
  }

  /** The text with leading and trailing whitespace removed, as `str.strip()` does. */
  function Strip(s: string): (t: string)
    decreases |s|
  {
    if s == [] then s
    else if IsSpace(s[0]) then Strip(s[1..])
    else if IsSpace(s[|s| - 1]) then Strip(s[..|s| - 1])
    else s
  }

  /** `t` is `s[i..j]`, and only whitespace lies before `i` and from `j` on. */
  predicate TrimmedAt(s: string, t: string, i: int, j: int)
  {
    && 0 <= i <= j <= |s| && t == s[i..j]
    && (forall k :: 0 <= k < i ==> IsSpace(s[k]))
    && (forall k :: j <= k < |s| ==> IsSpace(s[k]))
  }

  /** The stripped text has no whitespace at either end, and is what is left of the text
      once a run of whitespace is removed from each end. */
  lemma {:induction false} StripTrims(s: string)
    ensures var t := Strip(s); t != [] ==> !IsSpace(t[0]) && !IsSpace(t[|t| - 1])
    ensures exists i, j :: TrimmedAt(s, Strip(s), i, j)
    decreases |s|
  {
    if s == [] {
      assert TrimmedAt(s, Strip(s), 0, 0);
    } else if IsSpace(s[0]) {
      StripTrims(s[1..]);
      var i, j :| TrimmedAt(s[1..], Strip(s[1..]), i, j);
      TrimmedAfterSpace(s, Strip(s[1..]), i, j);
    } else if IsSpace(s[|s| - 1]) {
      StripTrims(s[..|s| - 1]);
      var i, j :| TrimmedAt(s[..|s| - 1], Strip(s[..|s| - 1]), i, j);
      TrimmedBeforeSpace(s, Strip(s[..|s| - 1]), i, j);
    } else {
      assert TrimmedAt(s, Strip(s), 0, |s|);
    }
  }

  lemma TrimmedAfterSpace(s: string, t: string, i: int, j: int)
    requires |s| > 0 && IsSpace(s[0]) && TrimmedAt(s[1..], t, i, j)
    ensures TrimmedAt(s, t, i + 1, j + 1)
  {
    assert s[1..][i..j] == s[i + 1..j + 1];
    forall k | 0 < k < i + 1 ensures IsSpace(s[k]) {
      assert s[k] == s[1..][k - 1];
    }
    forall k | j + 1 <= k < |s| ensures IsSpace(s[k]) {
      assert s[k] == s[1..][k - 1];
    }
  }

  lemma TrimmedBeforeSpace(s: string, t: string, i: int, j: int)
    requires |s| > 0 && IsSpace(s[|s| - 1]) && TrimmedAt(s[..|s| - 1], t, i, j)
    ensures TrimmedAt(s, t, i, j)
  {
    assert s[..|s| - 1][i..j] == s[i..j];
    forall k | j <= k < |s| - 1 ensures IsSpace(s[k]) {
      assert s[k] == s[..|s| - 1][k];
    }
  }

  lemma StripUnchanged(s: string)
    requires s != [] ==> !IsSpace(s[0]) && !IsSpace(s[|s| - 1])
    ensures Strip(s) == s
  {
  }

  /** A run of decimal digits in which single underscores may separate digits,
      the digit grammar of `int()` and `float()`. */
  predicate IsDigitPart(s: string)
    decreases |s|
  {
    && |s| > 0
    && IsDigit(s[0])
    && (|s| == 1 || if s[1] == '_' then |s| > 2 && IsDigitPart(s[2..]) else IsDigitPart(s[1..]))
  }

  /** A run of digits without underscores is in the digit grammar. */
  lemma {:induction false} DigitsAreDigitPart(s: string)
    requires |s| > 0 && forall i :: 0 <= i < |s| ==> IsDigit(s[i])
    ensures IsDigitPart(s)
    decreases |s|
  {
    if |s| > 1 {
      DigitsAreDigitPart(s[1..]);
    }
  }

  /** The number the digits of `s` spell, underscores skipped. */
  function DigitsValue(s: string): nat
  {
    if s == [] then 0
    else if IsDigit(s[|s| - 1]) then 10 * DigitsValue(s[..|s| - 1]) + (s[|s| - 1] as int - '0' as int)
    else DigitsValue(s[..|s| - 1])
  }

  /** What `int(s)` returns for a string: optional whitespace, an optional sign, digits. */
  function ParseInt(s: string): Option<int>
  {
    var t := Strip(s);
    var negative := |t| > 0 && t[0] == '-';
    var body := if |t| > 0 && (t[0] == '-' || t[0] == '+') then t[1..] else t;
    if IsDigitPart(body) then
      Some(if negative then -(DigitsValue(body) as int) else DigitsValue(body))
    else None
  }

  /** The decimal digits of `n`, most significant first. */
  function ShowNat(n: nat): (s: string)
    ensures |s| > 0 && forall i :: 0 <= i < |s| ==> IsDigit(s[i])
  {
    var d := ['0' + (n % 10) as char];
    if n < 10 then d else ShowNat(n / 10) + d
  }

  /** The decimal form `str(n)` gives. */
  function ShowInt(n: int): string
  {
    if n < 0 then "-" + ShowNat(-n) else ShowNat(n)
  }

  lemma {:induction false} DigitsOfShowNat(n: nat)
    ensures DigitsValue(ShowNat(n)) == n
  {
    var s := ShowNat(n);
    if n >= 10 {
      DigitsOfShowNat(n / 10);
      assert s[..|s| - 1] == ShowNat(n / 10);
    }
  }

  /** Round trip: `int(str(n)) == n`. */
  lemma ParseShowInt(n: int)
    ensures ParseInt(ShowInt(n)) == Some(n)
  {
    var s := ShowInt(n);
    var digits := if n < 0 then ShowNat(-n) else ShowNat(n);
    StripUnchanged(s);
    DigitsOfShowNat(if n < 0 then -n else n);
    if n < 0 {
      assert s[1..] == digits;
    }
    DigitsAreDigitPart(digits);
  }

  /** ASCII lower case, for the case-insensitive `inf`, `infinity` and `nan` of `float()`. */
  function Lower(s: string): (t: string)
    ensures |t| == |s|
  {
    if s == [] then s
    else [if 'A' <= s[0] <= 'Z' then (s[0] as int + 32) as char else s[0]] + Lower(s[1..])
  }

  /** `e` or `E`, an optional sign and digits. */
  predicate IsExponent(x: string)
  {
    && |x| >= 2
    && (x[0] == 'e' || x[0] == 'E')
    && (IsDigitPart(x[1..]) || ((x[1] == '+' || x[1] == '-') && IsDigitPart(x[2..])))
  }

  /** The index of the first `a` or `b` in `s`, or `|s|` when there is none. */
  function Find(s: string, a: char, b: char): (k: nat)
    ensures k <= |s|
    ensures k < |s| ==> s[k] == a || s[k] == b
  {
    if s == [] then 0
    else if s[0] == a || s[0] == b then 0
    else 1 + Find(s[1..], a, b)
  }

  /** Digits with an optional fractional part, or a point followed by digits. Digit runs
      hold no point, so the point, if any, is the first one. */
  predicate IsMantissa(m: string)
  {
    var d := Find(m, '.', '.');
    if d == |m| then IsDigitPart(m)
    else (IsDigitPart(m[..d]) && (d + 1 == |m| || IsDigitPart(m[d + 1..]))) || (d == 0 && IsDigitPart(m[1..]))
  }

  /** A mantissa, then an optional exponent, which starts at the first `e` or `E`. */
  predicate IsDecimal(b: string)
  {
    var e := Find(b, 'e', 'E');
    IsMantissa(b[..e]) && (e == |b| || IsExponent(b[e..]))
  }

  /** The strings `float()` accepts: optional whitespace, an optional sign, then a decimal
      literal or one of `inf`, `infinity`, `nan` in any case. */
  predicate IsFloatLiteral(s: string)
  {
    var t := Strip(s);
    var body := if |t| > 0 && (t[0] == '-' || t[0] == '+') then t[1..] else t;
    Lower(body) == "inf" || Lower(body) == "infinity" || Lower(body) == "nan" || IsDecimal(body)
  }

  /** Whitespace added at the end is stripped with the rest. */
  lemma {:induction false} StripAppendSpace(s: string, c: char)
    requires IsSpace(c)
    ensures Strip(s + [c]) == Strip(s)
    decreases |s|
  {
    if s == [] {
      assert [] + [c] == [c];
    } else if IsSpace(s[0]) {
      assert (s + [c])[1..] == s[1..] + [c];
      StripAppendSpace(s[1..], c);
    } else {
      assert (s + [c])[..|s|] == s;
    }
  }

  /** `float()` ignores whitespace around its text: padding a text with a space on either side
      changes nothing it accepts or rejects. */
  lemma FloatLiteralPadded(s: string, c: char)
    requires IsSpace(c)
    ensures IsFloatLiteral([c] + s) == IsFloatLiteral(s)
    ensures IsFloatLiteral(s + [c]) == IsFloatLiteral(s)
  {
    assert ([c] + s)[1..] == s;
    StripAppendSpace(s, c);
  }

  /** A digit run holds neither a point nor an exponent mark. */
  lemma {:induction false} DigitPartHasNoMark(s: string, a: char, b: char)
    requires IsDigitPart(s)
    requires !IsDigit(a) && a != '_' && !IsDigit(b) && b != '_'
    ensures Find(s, a, b) == |s|
    decreases |s|
  {
    if |s| > 1 {
      if s[1] == '_' {
        DigitPartHasNoMark(s[2..], a, b);
        assert s[1..][1..] == s[2..];
      } else {
        DigitPartHasNoMark(s[1..], a, b);
      }
    }
  }

  /** Every string `int()` accepts, `float()` accepts too. */
  lemma IntIsFloat(s: string)
    requires ParseInt(s).Some?
    ensures IsFloatLiteral(s)
  {
    var t := Strip(s);
    var body := if |t| > 0 && (t[0] == '-' || t[0] == '+') then t[1..] else t;
    DigitPartHasNoMark(body, 'e', 'E');
    DigitPartHasNoMark(body, '.', '.');
    assert body[..|body|] == body;
  }

  /** `float(str(n))` succeeds for every integer n. */
  lemma ShowIntIsFloat(n: int)
    ensures IsFloatLiteral(ShowInt(n))
  {
    ParseShowInt(n);
    IntIsFloat(ShowInt(n));
  }

  /** `s.split(sep)`: the fields between occurrences of `sep`, in order; an empty text gives
      one empty field. */
  function Split(s: string, sep: char): (fields: seq<string>)
    ensures |fields| >= 1
  {
    if s == [] then [""]
    else
      var fs := Split(s[..|s| - 1], sep);
      var last := s[|s| - 1];
      if last == sep then fs + [""] else fs[..|fs| - 1] + [fs[|fs| - 1] + [last]]
  }

  /** No field holds the separator. */
  lemma {:induction false} SplitFields(s: string, sep: char)
    ensures forall i :: 0 <= i < |Split(s, sep)| ==> sep !in Split(s, sep)[i]
  {
    if s != [] {
      SplitFields(s[..|s| - 1], sep);
    }
  }

  /** `sep.join(fields)`. */
  function Join(fields: seq<string>, sep: char): string
    requires |fields| >= 1
  {
    if |fields| == 1 then fields[0] else Join(fields[..|fields| - 1], sep) + [sep] + fields[|fields| - 1]
  }

  /** Joining the fields of a text gives the text back. */
  lemma {:induction false} JoinSplit(s: string, sep: char)
    ensures Join(Split(s, sep), sep) == s
  {
    if s != [] {
      var init, last := s[..|s| - 1], s[|s| - 1];
      var fs := Split(init, sep);
      JoinSplit(init, sep);
      if last == sep {
        JoinSnocEmpty(fs, sep);
      } else {
        JoinSnocChar(fs, last, sep);
      }
      assert s == init + [last];
    }
  }

  /** A new empty last field adds one separator to the joined text. */
  lemma JoinSnocEmpty(fields: seq<string>, sep: char)
    requires |fields| >= 1
    ensures Join(fields + [""], sep) == Join(fields, sep) + [sep]
  {
    assert (fields + [""])[..|fields|] == fields;
  }

  /** A character added to the last field is added to the joined text. */
  lemma JoinSnocChar(fields: seq<string>, c: char, sep: char)
    requires |fields| >= 1
    ensures Join(fields[..|fields| - 1] + [fields[|fields| - 1] + [c]], sep) == Join(fields, sep) + [c]
  {
    var longer := fields[..|fields| - 1] + [fields[|fields| - 1] + [c]];
    if |fields| > 1 {
      assert longer[..|longer| - 1] == fields[..|fields| - 1];
      var front := Join(fields[..|fields| - 1], sep);
      assert Join(longer, sep) == front + [sep] + (fields[|fields| - 1] + [c]);
      assert front + [sep] + (fields[|fields| - 1] + [c]) == front + [sep] + fields[|fields| - 1] + [c];
    }
  }

  lemma SplitSnoc(s: string, c: char, sep: char)
    ensures var fs := Split(s, sep);
            Split(s + [c], sep) == if c == sep then fs + [""] else fs[..|fs| - 1] + [fs[|fs| - 1] + [c]]
  {
    assert (s + [c])[..|s|] == s;
  }

  /** One step of SplitJoin: a last field ending in `c` is split back once the text
      without that `c` is. */
  lemma SplitJoinSnoc(fields: seq<string>, sep: char)
    requires |fields| >= 1 && fields[|fields| - 1] != []
    requires sep !in fields[|fields| - 1]
    requires var last := fields[|fields| - 1];
             var shorter := fields[..|fields| - 1] + [last[..|last| - 1]];
             Split(Join(shorter, sep), sep) == shorter
    ensures Split(Join(fields, sep), sep) == fields
  {
    var last := fields[|fields| - 1];
    var c := last[|last| - 1];
    var shorter := fields[..|fields| - 1] + [last[..|last| - 1]];
    assert shorter[..|shorter| - 1] + [shorter[|shorter| - 1] + [c]] == fields by {
      assert last == last[..|last| - 1] + [c];
      assert shorter[..|shorter| - 1] == fields[..|fields| - 1];
    }
    JoinSnocChar(shorter, c, sep);
    assert c != sep by {
      assert c in last;
    }
    SplitSnoc(Join(shorter, sep), c, sep);
  }

  /** One step of SplitJoin: an empty last field is split back once the others are. */
  lemma SplitJoinEmptyLast(fields: seq<string>, sep: char)
    requires |fields| > 1 && fields[|fields| - 1] == []
    requires Split(Join(fields[..|fields| - 1], sep), sep) == fields[..|fields| - 1]
    ensures Split(Join(fields, sep), sep) == fields
  {
    var init := fields[..|fields| - 1];
    assert Join(fields, sep) == Join(init, sep) + [sep];
    SplitSnoc(Join(init, sep), sep, sep);
    assert fields == init + [""];
  }

  lemma {:induction false} SplitJoin(fields: seq<string>, sep: char)
    requires |fields| >= 1
    requires forall i :: 0 <= i < |fields| ==> sep !in fields[i]
    ensures Split(Join(fields, sep), sep) == fields
    decreases |fields|, |fields[|fields| - 1]|
  {
    var last := fields[|fields| - 1];
    if last == [] && |fields| > 1 {
      SplitJoin(fields[..|fields| - 1], sep);
      SplitJoinEmptyLast(fields, sep);
    } else if last != [] {
      var shorter := fields[..|fields| - 1] + [last[..|last| - 1]];
      forall i | 0 <= i < |shorter| ensures sep !in shorter[i] {
        if i == |shorter| - 1 {
          assert forall x :: x in last[..|last| - 1] ==> x in last;
        }
      }
      SplitJoin(shorter, sep);
      SplitJoinSnoc(fields, sep);
    }
  }

  /** The number of occurrences of `c` in `s`. */
  function Count(s: string, c: char): nat
  {
    if s == [] then 0 else Count(s[..|s| - 1], c) + (if s[|s| - 1] == c then 1 else 0)
  }

  lemma {:induction false} SplitCount(s: string, sep: char)
    ensures |Split(s, sep)| == Count(s, sep) + 1
  {
    if s != [] {
      SplitCount(s[..|s| - 1], sep);
    }
  }
}
