/**
 * The numbers cell: `[int(n) for n in re.split(r"[,\s\-]+", cell) if n.isdigit()]`.
 * The split cuts at every maximal run of separators (comma, hyphen or
 * whitespace) and keeps the empty fields a leading or trailing run leaves;
 * the filter keeps the non-empty all-digit fields, in order, as numbers.
 */
module NumberCell {
  import opened Decimal

  /** `\s` of a `str` pattern: the characters for which `str.isspace()` holds. */
  predicate IsSpace(c: char) {
    ('\t' <= c <= '\r') || ('\U{1c}' <= c <= ' ') || c == '\U{85}' || c == '\U{a0}' ||
    c == '\U{1680}' || ('\U{2000}' <= c <= '\U{200a}') || c == '\U{2028}' || c == '\U{2029}' ||
    c == '\U{202f}' || c == '\U{205f}' || c == '\U{3000}'
  }

  /** The character class `[,\s\-]`. */
  predicate IsSeparator(c: char) { c == ',' || c == '-' || IsSpace(c) }

  predicate NoSeparator(s: string) { forall i :: 0 <= i < |s| ==> !IsSeparator(s[i]) }

  predicate OnlySeparators(s: string) { forall i :: 0 <= i < |s| ==> IsSeparator(s[i]) }

  /** Length of the longest prefix of `s` free of separators. */
  function FieldLength(s: string): (n: nat)
    ensures n <= |s| && NoSeparator(s[..n])
    ensures n < |s| ==> IsSeparator(s[n])
  {
    if s == [] || IsSeparator(s[0]) then 0 else 1 + FieldLength(s[1..])
  }

  /** Length of the longest prefix of `s` made of separators. */
  function RunLength(s: string): (n: nat)
    ensures n <= |s| && OnlySeparators(s[..n])
    ensures n < |s| ==> !IsSeparator(s[n])
  {
    if s == [] || !IsSeparator(s[0]) then 0 else 1 + RunLength(s[1..])
  }

  /** `re.split(r"[,\s\-]+", s)`. */
  function Split(s: string): (fields: seq<string>)
    ensures |fields| >= 1
    ensures forall k :: 0 <= k < |fields| ==> NoSeparator(fields[k])
    decreases |s|
  {
    var n := FieldLength(s);
    if n == |s| then [s]
    else
      var rest := s[n..];
      [s[..n]] + Split(rest[RunLength(rest)..])
  }

  /** `n.isdigit()` for an ASCII field: non-empty and digits only. */
  predicate IsNumeral(t: string) { |t| > 0 && AllDigits(t) }

  /** The list comprehension's filter and conversion. */
  function Numerals(fields: seq<string>): seq<nat>
  {
    if fields == [] then []
    else (if IsNumeral(fields[0]) then [Value(fields[0])] else []) + Numerals(fields[1..])
  }

  /** The numbers a cell yields. */
  function Numbers(cell: string): seq<nat>
  {
    Numerals(Split(cell))
  }

  /** `",".join(map(str, ns))`. */
  function Join(ns: seq<nat>): string
  {
    if ns == [] then ""
    else if |ns| == 1 then Show(ns[0])
    else Show(ns[0]) + "," + Join(ns[1..])
  }

  lemma {:induction false} FieldLengthOf(w: string, t: string)
    requires NoSeparator(w) && (t == [] || IsSeparator(t[0]))
    ensures FieldLength(w + t) == |w|
  {
    if w != [] {
      assert (w + t)[0] == w[0] && (w + t)[1..] == w[1..] + t;
      FieldLengthOf(w[1..], t);
    }
  }

  lemma {:induction false} RunLengthOf(r: string, t: string)
    requires OnlySeparators(r) && (t == [] || !IsSeparator(t[0]))
    ensures RunLength(r + t) == |r|
  {
    if r != [] {
      assert (r + t)[0] == r[0] && (r + t)[1..] == r[1..] + t;
      RunLengthOf(r[1..], t);
    }
  }

  /** A string without separators is a single field. */
  lemma SplitField(w: string)
    requires NoSeparator(w)
    ensures Split(w) == [w]
  {
    FieldLengthOf(w, []);
    assert w + [] == w;
  }

  /**
   * A field, then a run of separators, then text that does not continue the
   * run: the field comes out first and the split resumes after the run.
   * With SplitField this determines Split on every string.
   */
  lemma SplitCons(w: string, r: string, t: string)
    requires NoSeparator(w) && |r| > 0 && OnlySeparators(r)
    requires t == [] || !IsSeparator(t[0])
    ensures Split(w + r + t) == [w] + Split(t)
  {
    var s := w + r + t;
    assert s == w + (r + t);
    FieldLengthOf(w, r + t);
    var rest := s[|w|..];
    assert rest == r + t;
    RunLengthOf(r, t);
    assert rest[|r|..] == t;
    assert s[..|w|] == w;
  }

  /** Filtering distributes over concatenation of field lists. */
  lemma {:induction false} NumeralsAppend(a: seq<string>, b: seq<string>)
    ensures Numerals(a + b) == Numerals(a) + Numerals(b)
  {
    if a != [] {
      NumeralsAppend(a[1..], b);
      assert (a + b)[0] == a[0] && (a + b)[1..] == a[1..] + b;
      assert Numerals(a + b) == (if IsNumeral(a[0]) then [Value(a[0])] else []) + Numerals(a[1..] + b);
    } else {
      assert a + b == b;
    }
  }

  /** A field yields its value exactly when it is a numeral, and nothing otherwise. */
  lemma NumbersField(w: string)
    requires NoSeparator(w)
    ensures Numbers(w) == if IsNumeral(w) then [Value(w)] else []
  {
    SplitField(w);
    assert Numerals([w]) == (if IsNumeral(w) then [Value(w)] else []) + Numerals([]);
  }

  /** The numbers of a cell are those of its first field followed by those of the rest. */
  lemma NumbersCons(w: string, r: string, t: string)
    requires NoSeparator(w) && |r| > 0 && OnlySeparators(r)
    requires t == [] || !IsSeparator(t[0])
    ensures Numbers(w + r + t) == (if IsNumeral(w) then [Value(w)] else []) + Numbers(t)
  {
    SplitCons(w, r, t);
    NumeralsAppend([w], Split(t));
    assert Numerals([w]) == (if IsNumeral(w) then [Value(w)] else []) + Numerals([]);
  }

  /** A list of numbers written out comma-separated is read back unchanged. */
  lemma {:induction false} NumbersOfJoin(ns: seq<nat>)
    ensures Numbers(Join(ns)) == ns
  {
    if ns == [] {
      assert Split("") == [""];
    } else {
      var w := Show(ns[0]);
      assert NoSeparator(w) by {
        forall i | 0 <= i < |w| ensures !IsSeparator(w[i]) { assert IsDigit(w[i]); }
      }
      ValueOfShow(ns[0]);
      if |ns| == 1 {
        NumbersField(w);
      } else {
        var t := Join(ns[1..]);
        NumbersOfJoin(ns[1..]);
        JoinStartsWithDigit(ns[1..]);
        NumbersCons(w, ",", t);
      }
    }
  }

  lemma JoinStartsWithDigit(ns: seq<nat>)
    requires ns != []
    ensures |Join(ns)| > 0 && IsDigit(Join(ns)[0])
  {
    var w := Show(ns[0]);
    if |ns| > 1 {
      assert Join(ns)[0] == w[0];
    }
  }

  /** Extracting, writing back and extracting again changes nothing. */
  lemma NumbersIdempotent(cell: string)
    ensures Numbers(Join(Numbers(cell))) == Numbers(cell)
  {
    NumbersOfJoin(Numbers(cell));
  }

  /**
   * Which fields survive the filter: a field mixing digits with anything
   * else, or an empty one, is dropped; leading zeros collapse; no range is
   * imposed on the values.
   */
  lemma FieldExamples()
    ensures !IsNumeral("12a") && !IsNumeral("") && !IsNumeral("+7")
    ensures IsNumeral("07") && Value("07") == 7
    ensures IsNumeral("0") && Value("0") == 0
    ensures IsNumeral("81") && Value("81") == 81
  {
    assert !IsDigit("12a"[2]);
    assert !IsDigit("+7"[0]);
    LeadingZero("7");
    assert ['0'] + "7" == "07";
  }
}
