/**
 Numbers in decimal, and texts made of a name, a number and a rest with a separator between them.
 Submission ids and deduplication keys have this form, with different separators; names and rests may
 contain the separator, so it takes some care to say when the parts can be told apart.
 */
module JoinedTexts {
  import opened Sequences

  function Digit(d: nat): char
    requires d < 10
  {
    "0123456789"[d]
  }

  predicate IsDigit(c: char) {
    '0' <= c <= '9'
  }

  /** Go's %d of an unsigned number. */
  function Decimal(n: nat): string {
    if n < 10 then [Digit(n)] else Decimal(n / 10) + [Digit(n % 10)]
  }

  lemma {:induction false} DecimalIsDigits(n: nat)
    ensures Decimal(n) != "" && forall c | c in Decimal(n) :: IsDigit(c)
  {
    if n >= 10 {
      DecimalIsDigits(n / 10);
    }
  }

  /** Reads digits back by their character codes. */
  ghost function ValueOf(s: string): nat
    requires forall c | c in s :: IsDigit(c)
  {
    if s == "" then 0
    else
      var last := s[|s| - 1];
      assert IsDigit(last);
      10 * ValueOf(s[..|s| - 1]) + (last as int - '0' as int)
  }

  /** The text of a number is its decimal notation: it reads back as the number, and has no leading zero. */
  lemma {:induction false} DecimalReadsBack(n: nat)
    ensures (forall c | c in Decimal(n) :: IsDigit(c)) && ValueOf(Decimal(n)) == n
    ensures Decimal(n) != "" && (Decimal(n)[0] == '0' ==> n == 0)
  {
    DecimalIsDigits(n);
    if n >= 10 {
      DecimalReadsBack(n / 10);
      assert Decimal(n)[..|Decimal(n)| - 1] == Decimal(n / 10);
    }
  }

  lemma DecimalIsInjective(m: nat, n: nat)
    requires Decimal(m) == Decimal(n)
    ensures m == n
  {
    DecimalReadsBack(m);
    DecimalReadsBack(n);
  }

  // ---------------------------------------------------------------- name, number and rest

  function Joined(sep: char, name: string, number: nat, rest: string): string {
    name + [sep] + Decimal(number) + [sep] + rest
  }

  /** c ends in a number, the separator and d, so the start of c can be read as part of a name and a number. */
  ghost predicate Overlaps(sep: char, c: string, d: string) {
    exists number: nat, w: string :: OverlapsAt(sep, c, d, number, w)
  }

  ghost predicate OverlapsAt(sep: char, c: string, d: string, number: nat, w: string) {
    c == Decimal(number) + [sep] + d || c == Joined(sep, w, number, d)
  }

  /** What precedes the rest determines name and number. */
  lemma NameAndNumber(sep: char, p: string, s: nat, q: string, t: nat)
    requires !IsDigit(sep) && p + [sep] + Decimal(s) == q + [sep] + Decimal(t)
    ensures p == q && s == t
  {
    DecimalIsDigits(s);
    DecimalIsDigits(t);
    SplitAtLast(p, q, Decimal(s), Decimal(t), sep);
    DecimalIsInjective(s, t);
  }

  /** A text with a separator has a last one. */
  lemma {:induction false} LastSeparator(sep: char, z: string) returns (w: string, t: string)
    requires sep in z
    ensures z == w + [sep] + t && Free(sep, t)
  {
    var n := |z| - 1;
    if z[n] == sep {
      w, t := z[..n], "";
    } else {
      assert z == z[..n] + [z[n]];
      var w', t' := LastSeparator(sep, z[..n]);
      w, t := w', t' + [z[n]];
    }
  }

  /** Two texts with a separator before their ends c and d, of which c is longer: c ends in the separator and d. */
  lemma LongerEnd(sep: char, left: string, c: string, right: string, d: string) returns (z: string)
    requires left + [sep] + c == right + [sep] + d && |c| > |d|
    ensures c == z + [sep] + d && right == left + [sep] + z
  {
    var whole := left + [sep] + c;
    assert whole == right + [sep] + d;
    z := c[..|c| - |d| - 1];
    assert |whole| == |left| + 1 + |c| == |right| + 1 + |d|;
    assert right == whole[..|right|] == left + [sep] + z;
    assert whole[|right|..] == [sep] + d;
    assert c == z + whole[|right|..];
  }

  /** ... of the same length: they are the same. */
  lemma SameEnd(sep: char, left: string, c: string, right: string, d: string)
    requires left + [sep] + c == right + [sep] + d && |c| == |d|
    ensures c == d && left == right
  {
    var whole := left + [sep] + c;
    assert whole == right + [sep] + d;
    assert left == whole[..|left|] && right == whole[..|right|];
    assert c == whole[|left| + 1..] && d == whole[|right| + 1..];
  }

  /** If the same text splits into a longer rest c and a shorter one d, then c overlaps d. */
  lemma LongerRestOverlaps(sep: char, p: string, s: nat, c: string, q: string, t: nat, d: string)
    requires !IsDigit(sep) && Joined(sep, p, s, c) == Joined(sep, q, t, d) && |c| > |d|
    ensures Overlaps(sep, c, d)
  {
    var left, right := p + [sep] + Decimal(s), q + [sep] + Decimal(t);
    var z := LongerEnd(sep, left, c, right, d);
    DecimalIsDigits(t);
    if sep in z {
      var w, u := LastSeparator(sep, z);
      assert right == (left + [sep] + w) + [sep] + u;
      SplitAtLast(left + [sep] + w, q, u, Decimal(t), sep);
      assert OverlapsAt(sep, c, d, t, w);
    } else {
      SplitAtLast(left, q, z, Decimal(t), sep);
      assert OverlapsAt(sep, c, d, t, "");
    }
  }

  /** Equal texts have equal parts, unless one rest overlaps the other. */
  lemma SameTextOnlyByOverlap(sep: char, p: string, s: nat, c: string, q: string, t: nat, d: string)
    requires !IsDigit(sep) && Joined(sep, p, s, c) == Joined(sep, q, t, d)
    ensures (p == q && s == t && c == d) || Overlaps(sep, c, d) || Overlaps(sep, d, c)
  {
    if |c| > |d| {
      LongerRestOverlaps(sep, p, s, c, q, t, d);
    } else if |c| < |d| {
      LongerRestOverlaps(sep, q, t, d, p, s, c);
    } else {
      SameEnd(sep, p + [sep] + Decimal(s), c, q + [sep] + Decimal(t), d);
      NameAndNumber(sep, p, s, q, t);
    }
  }

  /** For every overlap there are two names and numbers that give one text. */
  lemma OverlapGivesSameText(sep: char, c: string, d: string) returns (p: string, s: nat, q: string, t: nat)
    requires Overlaps(sep, c, d)
    ensures Joined(sep, p, s, c) == Joined(sep, q, t, d) && p != q
  {
    var number: nat, w :| OverlapsAt(sep, c, d, number, w);
    p, s, t := "p", 0, number;
    if c == Decimal(number) + [sep] + d {
      q := "p" + [sep] + Decimal(0);
      ShiftNumber(sep, p, s, number, d);
    } else {
      q := "p" + [sep] + Decimal(0) + [sep] + w;
      ShiftNameAndNumber(sep, p, s, w, number, d);
    }
    assert |p| < |q|;
  }

  /** A number at the start of the rest can be read as the text's number, and what precedes it as its name. */
  lemma ShiftNumber(sep: char, p: string, s: nat, number: nat, d: string)
    ensures Joined(sep, p, s, Decimal(number) + [sep] + d) == Joined(sep, p + [sep] + Decimal(s), number, d)
  {
    assert p + [sep] + Decimal(s) + [sep] + (Decimal(number) + [sep] + d) == (p + [sep] + Decimal(s)) + [sep] + Decimal(number) + [sep] + d;
  }

  lemma ShiftNameAndNumber(sep: char, p: string, s: nat, w: string, number: nat, d: string)
    ensures Joined(sep, p, s, Joined(sep, w, number, d)) == Joined(sep, p + [sep] + Decimal(s) + [sep] + w, number, d)
  {
    assert p + [sep] + Decimal(s) + [sep] + (w + [sep] + Decimal(number) + [sep] + d)
           == (p + [sep] + Decimal(s) + [sep] + w) + [sep] + Decimal(number) + [sep] + d;
  }

  /** A text without the separator overlaps nothing. */
  lemma FreeTextDoesNotOverlap(sep: char, c: string, d: string)
    requires Free(sep, c)
    ensures !Overlaps(sep, c, d)
  {
    forall number: nat, w: string
      ensures !OverlapsAt(sep, c, d, number, w)
    {
      assert (Decimal(number) + [sep] + d)[|Decimal(number)|] == sep;
      assert Joined(sep, w, number, d)[|w|] == sep;
    }
  }
}
