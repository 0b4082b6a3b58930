/**
  The order in which page names are read (natural_sort_key in
  core/inkdrop_archive_conversion.py), for any alphabet.
 */
module NaturalOrder {
  import opened Outcomes
  import opened Sorting

  datatype Order = Less | Equal | Greater | Mixed

  function Flip(o: Order): Order {
    match o
    case Less => Greater
    case Greater => Less
    case _ => o
  }

  // ------------------------------------------------------------------------ text

  /** Python's comparison of strings, by code point. */
  function CompareText(a: string, b: string): Order {
    if a == "" then (if b == "" then Equal else Less)
    else if b == "" then Greater
    else if a[0] < b[0] then Less
    else if b[0] < a[0] then Greater
    else CompareText(a[1..], b[1..])
  }

  lemma {:induction false} TextTotal(a: string, b: string)
    ensures CompareText(a, b) == Equal <==> a == b
    ensures CompareText(b, a) == Flip(CompareText(a, b)) && CompareText(a, b) != Mixed
  {
    if a != "" && b != "" {
      TextTotal(a[1..], b[1..]);
      assert a == [a[0]] + a[1..] && b == [b[0]] + b[1..];
    }
  }

  lemma {:induction false} TextTransitive(a: string, b: string, c: string)
    requires CompareText(a, b) == Less && CompareText(b, c) == Less
    ensures CompareText(a, c) == Less
  {
    if a != "" && a[0] == b[0] && b[0] == c[0] {
      TextTransitive(a[1..], b[1..], c[1..]);
    }
  }

  /** a ends where b goes on, or has the smaller character where they first differ. */
  predicate PartsBefore(a: string, b: string, i: nat) {
    i <= |a| && i < |b| && a[..i] == b[..i] && (i == |a| || a[i] < b[i])
  }

  lemma {:induction false} TextExactly(a: string, b: string)
    ensures CompareText(a, b) == Less <==> exists i: nat :: PartsBefore(a, b, i)
  {
    if a == "" || b == "" || a[0] != b[0] {
      assert PartsBefore(a, b, 0) <==> b != "" && (a == "" || a[0] < b[0]);
      assert forall i: nat | i > 0 && PartsBefore(a, b, i) :: a[..i][0] == b[..i][0];
    } else {
      TextExactly(a[1..], b[1..]);
      if i: nat :| PartsBefore(a[1..], b[1..], i) {
        assert a[..i + 1] == [a[0]] + a[1..][..i] && b[..i + 1] == [b[0]] + b[1..][..i];
        assert PartsBefore(a, b, i + 1);
      }
      if i: nat :| PartsBefore(a, b, i) {
        assert i > 0 && a[1..][..i - 1] == a[..i][1..] && b[1..][..i - 1] == b[..i][1..];
        assert PartsBefore(a[1..], b[1..], i - 1);
      }
    }
  }

  /** Strings of one length that differ early compare as their beginnings do. */
  lemma {:induction false} TextByPrefix(p: string, q: string, a: string, b: string)
    requires |p| == |q| && CompareText(p, q) == Less
    ensures CompareText(p + a, q + b) == Less
  {
    assert (p + a)[1..] == p[1..] + a && (q + b)[1..] == q[1..] + b;
    if p[0] == q[0] {
      TextByPrefix(p[1..], q[1..], a, b);
    }
  }

  predicate TextLe(a: string, b: string) { CompareText(a, b) in {Less, Equal} }

  lemma TextLeTotal()
    ensures TotalOrder(TextLe)
  {
    hide CompareText;
    forall a, b
      ensures TextLe(a, b) || TextLe(b, a)
    {
      TextTotal(a, b);
    }
    forall a, b, c | TextLe(a, b) && TextLe(b, c)
      ensures TextLe(a, c)
    {
      TextLeTransitive(a, b, c);
    }
  }

  lemma TextLeTransitive(a: string, b: string, c: string)
    requires TextLe(a, b) && TextLe(b, c)
    ensures TextLe(a, c)
  {
    hide CompareText;
    TextTotal(a, b);
    TextTotal(b, c);
    if a != b && b != c {
      TextTransitive(a, b, c);
    }
  }

  // ------------------------------------------------------------------------ keys

  datatype Atom = Text(text: string) | Number(value: nat)

  type Key = seq<Atom>

  /**
    Characters as Python classes them: decimal digits, which a pattern's \d
    matches, with their values; those str.isdigit accepts; and lower case.
   */
  datatype Alphabet = Alphabet(decimal: char -> bool, value: char -> nat, digit: char -> bool, lower: string -> string)

  const ASCII := Alphabet(IsDigit, Digit, IsDigit, Lower)

  predicate IsDigit(c: char) { '0' <= c <= '9' }

  function Lower(s: string): (r: string)
    ensures |r| == |s|
  {
    seq(|s|, i requires 0 <= i < |s| => if 'A' <= s[i] <= 'Z' then s[i] + ('a' - 'A') else s[i])
  }

  function Digit(c: char): nat { if IsDigit(c) then c as int - '0' as int else 0 }

  function Value(abc: Alphabet, digits: string): nat {
    if digits == "" then 0 else 10 * Value(abc, digits[..|digits| - 1]) + abc.value(digits[|digits| - 1])
  }

  /** The length of the run of digits, or of other characters, that s begins with. */
  function Run(abc: Alphabet, s: string, digits: bool): (n: nat)
    ensures n <= |s|
    ensures forall i | 0 <= i < n :: abc.decimal(s[i]) == digits
    ensures n < |s| ==> abc.decimal(s[n]) != digits
  {
    if s == "" || abc.decimal(s[0]) != digits then 0 else 1 + Run(abc, s[1..], digits)
  }

  /** The key of natural_sort_key, where it does not raise. */
  function NaturalKey(abc: Alphabet, s: string): Key
    decreases |s|
  {
    var n := Run(abc, s, false);
    if n == |s| then [Text(abc.lower(s))]
    else
      var m := Run(abc, s[n..], true);
      [Text(abc.lower(s[..n])), Number(Value(abc, s[n..n + m]))] + NaturalKey(abc, s[n + m..])
  }

  /** Text and numbers in turn, beginning and ending with text. */
  lemma {:induction false} KeyAlternates(abc: Alphabet, s: string)
    ensures |NaturalKey(abc, s)| % 2 == 1 && Alternates(NaturalKey(abc, s))
    decreases |s|
  {
    hide NaturalKey, Run, Alternates;
    if Run(abc, s, false) == |s| {
      OnlyText(abc, s);
    } else {
      var two, rest := KeySplit(abc, s);
      KeyAlternates(abc, rest);
      PrependAlternates(two, NaturalKey(abc, rest));
    }
  }

  lemma OnlyText(abc: Alphabet, s: string)
    requires Run(abc, s, false) == |s|
    ensures |NaturalKey(abc, s)| == 1 && Alternates(NaturalKey(abc, s))
  {
  }

  lemma KeySplit(abc: Alphabet, s: string) returns (two: Key, rest: string)
    requires Run(abc, s, false) < |s|
    ensures |rest| < |s| && |two| == 2 && two[0].Text? && two[1].Number?
            && NaturalKey(abc, s) == two + NaturalKey(abc, rest)
  {
    hide Value, Run, NaturalKey;
    var n := Run(abc, s, false);
    var m := Run(abc, s[n..], true);
    assert s[n..][0] == s[n];
    KeyUnfold(abc, s, n, m);
    two, rest := [Text(abc.lower(s[..n])), Number(Value(abc, s[n..n + m]))], s[n + m..];
  }

  lemma PrependAlternates(two: Key, rest: Key)
    requires |two| == 2 && two[0].Text? && two[1].Number? && Alternates(rest)
    ensures Alternates(two + rest)
  {
  }

  predicate Alternates(k: Key) {
    forall i | 0 <= i < |k| :: k[i].Text? <==> i % 2 == 0
  }

  function CompareAtom(a: Atom, b: Atom): Order {
    match (a, b)
    case (Text(s), Text(t)) => CompareText(s, t)
    case (Number(m), Number(n)) => if m < n then Less else if n < m then Greater else Equal
    case _ => Mixed
  }

  /** Python's comparison of lists: the first unequal items decide; text with a number raises. */
  function Compare(a: Key, b: Key): Order {
    if a == [] then (if b == [] then Equal else Less)
    else if b == [] then Greater
    else if CompareAtom(a[0], b[0]) != Equal then CompareAtom(a[0], b[0])
    else Compare(a[1..], b[1..])
  }

  /** Text and numbers stand at the same places of two keys. */
  predicate Aligned(a: Key, b: Key) {
    forall i | 0 <= i < |a| && i < |b| :: a[i].Text? <==> b[i].Text?
  }

  lemma {:induction false} AlignedTotal(a: Key, b: Key)
    requires Aligned(a, b)
    ensures Compare(a, b) != Mixed && Compare(b, a) == Flip(Compare(a, b))
    ensures Compare(a, b) == Equal <==> a == b
  {
    if a != [] && b != [] {
      AtomTotal(a[0], b[0]);
      assert a == [a[0]] + a[1..] && b == [b[0]] + b[1..];
      if a[0] == b[0] {
        AlignedTotal(a[1..], b[1..]);
      }
    }
  }

  lemma AtomTotal(a: Atom, b: Atom)
    requires a.Text? <==> b.Text?
    ensures CompareAtom(a, b) != Mixed && CompareAtom(b, a) == Flip(CompareAtom(a, b))
    ensures CompareAtom(a, b) == Equal <==> a == b
  {
    if a.Text? && b.Text? {
      TextTotal(a.text, b.text);
    }
  }

  lemma {:induction false} AlignedTransitive(a: Key, b: Key, c: Key)
    requires Aligned(a, b) && Aligned(b, c) && Aligned(a, c)
    requires Compare(a, b) == Less && Compare(b, c) == Less
    ensures Compare(a, c) == Less
  {
    if a != [] && b != [] && c != [] {
      AtomTotal(a[0], b[0]);
      AtomTotal(b[0], c[0]);
      AtomTotal(a[0], c[0]);
      if a[0] == b[0] == c[0] {
        AlignedTransitive(a[1..], b[1..], c[1..]);
      } else if a[0].Text? && a[0] != b[0] && b[0] != c[0] {
        TextTransitive(a[0].text, b[0].text, c[0].text);
      }
    }
  }

  // ----------------------------------------------------------------------- names

  function CompareNames(abc: Alphabet, s: string, t: string): Order { Compare(NaturalKey(abc, s), NaturalKey(abc, t)) }

  /** Comparing two names never compares text with a number, and orders every pair. */
  lemma NeverMixes(abc: Alphabet, s: string, t: string)
    ensures CompareNames(abc, s, t) != Mixed && CompareNames(abc, t, s) == Flip(CompareNames(abc, s, t))
    ensures CompareNames(abc, s, t) == Equal <==> NaturalKey(abc, s) == NaturalKey(abc, t)
  {
    KeyAlternates(abc, s);
    KeyAlternates(abc, t);
    AlignedTotal(NaturalKey(abc, s), NaturalKey(abc, t));
  }

  lemma NamesTransitive(abc: Alphabet, s: string, t: string, u: string)
    requires CompareNames(abc, s, t) == Less && CompareNames(abc, t, u) == Less
    ensures CompareNames(abc, s, u) == Less
  {
    KeyAlternates(abc, s);
    KeyAlternates(abc, t);
    KeyAlternates(abc, u);
    AlignedTransitive(NaturalKey(abc, s), NaturalKey(abc, t), NaturalKey(abc, u));
  }

  predicate Digits(abc: Alphabet, x: string) { x != "" && forall i | 0 <= i < |x| :: abc.decimal(x[i]) }

  /** s does not begin with a digit. */
  predicate Stops(abc: Alphabet, s: string) { s == "" || !abc.decimal(s[0]) }

  lemma {:induction false} RunStops(abc: Alphabet, x: string, s: string)
    requires (forall i | 0 <= i < |x| :: abc.decimal(x[i])) && Stops(abc, s)
    ensures Run(abc, x + s, true) == |x|
  {
    if x == "" {
      assert x + s == s;
    } else {
      assert (x + s)[1..] == x[1..] + s;
      RunStops(abc, x[1..], s);
    }
  }

  lemma {:induction false} RunText(abc: Alphabet, x: string, s: string)
    requires (forall i | 0 <= i < |x| :: !abc.decimal(x[i])) && s != "" && abc.decimal(s[0])
    ensures Run(abc, x + s, false) == |x|
  {
    if x == "" {
      assert x + s == s;
    } else {
      assert (x + s)[1..] == x[1..] + s;
      RunText(abc, x[1..], s);
    }
  }

  lemma KeyUnfolds(abc: Alphabet, t: string, x: string, r: string)
    requires (forall i | 0 <= i < |t| :: !abc.decimal(t[i])) && Digits(abc, x) && Stops(abc, r)
    ensures NaturalKey(abc, t + x + r) == [Text(abc.lower(t)), Number(Value(abc, x))] + NaturalKey(abc, r)
  {
    var s := t + x + r;
    assert s == t + (x + r) && s[|t|..] == x + r;
    RunText(abc, t, x + r);
    RunStops(abc, x, r);
    assert s[..|t|] == t && s[|t|..|t| + |x|] == x && s[|t| + |x|..] == r;
  }

  /**
    A person's order: of two names with a common beginning, the one whose next
    number is smaller comes first, however many digits either is written with.
   */
  lemma {:induction false} SmallerNumberFirst(abc: Alphabet, p: string, x: string, y: string, r: string, s: string)
    requires p == "" || !abc.decimal(p[|p| - 1])
    requires Digits(abc, x) && Digits(abc, y) && Value(abc, x) < Value(abc, y) && Stops(abc, r) && Stops(abc, s)
    ensures CompareNames(abc, p + x + r, p + y + s) == Less
    decreases |p|
  {
    hide Compare, NaturalKey, Value, Run;
    if forall i | 0 <= i < |p| :: !abc.decimal(p[i]) {
      KeyUnfolds(abc, p, x, r);
      KeyUnfolds(abc, p, y, s);
      FirstAtoms([Text(abc.lower(p)), Number(Value(abc, x))], [Text(abc.lower(p)), Number(Value(abc, y))],
                 NaturalKey(abc, r), NaturalKey(abc, s));
    } else {
      var t, d, q := SplitPrefix(abc, p);
      SmallerNumberFirst(abc, q, x, y, r, s);
      KeyUnfolds(abc, t, d, q + x + r);
      KeyUnfolds(abc, t, d, q + y + s);
      Regroup(abc, t, d, q, x, r);
      Regroup(abc, t, d, q, y, s);
      SameAtoms([Text(abc.lower(t)), Number(Value(abc, d))], NaturalKey(abc, q + x + r), NaturalKey(abc, q + y + s));
    }
  }

  lemma Regroup(abc: Alphabet, t: string, d: string, q: string, x: string, r: string)
    ensures (t + d + q) + x + r == t + d + (q + x + r)
    ensures Stops(abc, q) && q != "" ==> Stops(abc, q + x + r)
  {
  }

  /** The first text and number of a beginning that has a number and does not end in one. */
  lemma SplitPrefix(abc: Alphabet, p: string) returns (t: string, d: string, q: string)
    requires p != "" && !abc.decimal(p[|p| - 1]) && exists i :: 0 <= i < |p| && abc.decimal(p[i])
    ensures p == t + d + q && (forall i | 0 <= i < |t| :: !abc.decimal(t[i])) && Digits(abc, d)
    ensures q != "" && Stops(abc, q) && q[|q| - 1] == p[|p| - 1] && |q| < |p|
  {
    var n := Run(abc, p, false);
    assert n < |p|;
    var rest := p[n..];
    var m := Run(abc, rest, true);
    assert m > 0 by { assert rest[0] == p[n]; }
    assert m < |rest| by { assert rest[|rest| - 1] == p[|p| - 1]; }
    t, d, q := p[..n], rest[..m], rest[m..];
  }

  lemma FirstAtoms(a: Key, b: Key, c: Key, d: Key)
    requires |a| == 2 && |b| == 2 && a[0].Text? && a[0] == b[0] && a[1].Number? && b[1].Number?
             && a[1].value < b[1].value
    ensures Compare(a + c, b + d) == Less
  {
    TextTotal(a[0].text, a[0].text);
    assert (a + c)[1..][0] == a[1] && (b + d)[1..][0] == b[1];
  }

  lemma SameAtoms(a: Key, c: Key, d: Key)
    requires |a| == 2 && a[0].Text? && a[1].Number?
    ensures Compare(a + c, a + d) == Compare(c, d)
  {
    TextTotal(a[0].text, a[0].text);
    assert (a + c)[1..] == [a[1]] + c && (a + d)[1..] == [a[1]] + d;
    assert ([a[1]] + c)[1..] == c && ([a[1]] + d)[1..] == d;
  }

  // ------------------------------------------------------------- names that raise

  /** re.split with a group of decimal digits: the digits and what lies between, in turn. */
  function Parts(abc: Alphabet, s: string): seq<string>
    decreases |s|
  {
    var n := Run(abc, s, false);
    if n == |s| then [s]
    else
      var m := Run(abc, s[n..], true);
      [s[..n], s[n..n + m]] + Parts(abc, s[n + m..])
  }

  /** str.isdigit */
  predicate AllDigits(abc: Alphabet, part: string) { part != "" && forall i | 0 <= i < |part| :: abc.digit(part[i]) }

  predicate Decimal(abc: Alphabet, part: string) { forall i | 0 <= i < |part| :: abc.decimal(part[i]) }

  /** int() of a part, which raises at a digit that is not decimal and at too many digits, or its lower case. */
  function AtomOf(abc: Alphabet, part: string): Result<Atom> {
    if !AllDigits(abc, part) then Ok(Text(abc.lower(part)))
    else if Decimal(abc, part) && |part| <= MAX_INT_DIGITS then Ok(Number(Value(abc, part)))
    else Raised
  }

  function AtomsOf(abc: Alphabet, parts: seq<string>): Result<Key> {
    if parts == [] then Ok([])
    else
      var (first, rest) := (AtomOf(abc, parts[0]), AtomsOf(abc, parts[1..]));
      if first.Ok? && rest.Ok? then Ok([first.value] + rest.value) else Raised
  }

  /** natural_sort_key */
  function SortKey(abc: Alphabet, s: string): Result<Key> { AtomsOf(abc, Parts(abc, s)) }

  /** Every decimal digit is a digit. */
  ghost predicate Coherent(abc: Alphabet) { forall c: char :: abc.decimal(c) ==> abc.digit(c) }

  /** A whole stretch between decimal digits consists of characters that are digits and not decimal. */
  predicate Blocks(abc: Alphabet, s: string, i: nat, j: nat) {
    i < j <= |s| && (forall k | i <= k < j :: !abc.decimal(s[k]) && abc.digit(s[k]))
    && (i == 0 || abc.decimal(s[i - 1])) && (j == |s| || abc.decimal(s[j]))
  }

  ghost predicate Stray(abc: Alphabet, s: string) { exists i: nat, j: nat :: Blocks(abc, s, i, j) }

  /** One more decimal digit in a row than int() takes. */
  predicate TooLong(abc: Alphabet, s: string, i: nat) {
    i + MAX_INT_DIGITS < |s| && forall k | i <= k <= i + MAX_INT_DIGITS :: abc.decimal(s[k])
  }

  ghost predicate Long(abc: Alphabet, s: string) { exists i: nat :: TooLong(abc, s, i) }

  lemma BlocksFirst(abc: Alphabet, s: string, n: nat)
    requires n <= |s| && (forall k | 0 <= k < n :: !abc.decimal(s[k])) && (n < |s| ==> abc.decimal(s[n]))
    ensures AllDigits(abc, s[..n]) <==> Blocks(abc, s, 0, n)
    ensures forall i: nat, j: nat | Blocks(abc, s, i, j) && i < n :: i == 0 && j == n
  {
    assert forall k | 0 <= k < n :: s[..n][k] == s[k];
  }

  /** A stretch past the first number is one of the rest. */
  lemma BlocksRest(abc: Alphabet, s: string, n: nat, m: nat, i: nat, j: nat)
    requires n + m <= |s| && m > 0 && (forall k | n <= k < n + m :: abc.decimal(s[k]))
    ensures Blocks(abc, s[n + m..], i, j) <==> Blocks(abc, s, n + m + i, n + m + j)
    ensures forall a: nat, b: nat | Blocks(abc, s, a, b) && a >= n :: a >= n + m
  {
    var rest := s[n + m..];
    assert forall k | 0 <= k < |rest| :: rest[k] == s[n + m + k];
    assert forall k | n + m <= k < |s| :: s[k] == rest[k - n - m];
    assert abc.decimal(s[n + m - 1]);
    assert 0 < i <= |rest| ==> rest[i - 1] == s[n + m + i - 1];
    assert j < |rest| ==> rest[j] == s[n + m + j];
    forall a: nat, b: nat | Blocks(abc, s, a, b) && a >= n
      ensures a >= n + m
    {
      assert !abc.decimal(s[a]);
    }
  }

  lemma StraySplit(abc: Alphabet, s: string, n: nat, m: nat)
    requires n == Run(abc, s, false) < |s| && m == Run(abc, s[n..], true)
    ensures m > 0 && Stray(abc, s) <==> AllDigits(abc, s[..n]) || Stray(abc, s[n + m..])
  {
    hide Blocks, Run;
    RunsThere(abc, s, n, m);
    BlocksFirst(abc, s, n);
    BlocksRest(abc, s, n, m, 0, 0);
    if Stray(abc, s[n + m..]) {
      var i: nat, j: nat :| Blocks(abc, s[n + m..], i, j);
      BlocksRest(abc, s, n, m, i, j);
    }
    if i: nat, j: nat :| Blocks(abc, s, i, j) {
      if i >= n {
        BlocksOrdered(abc, s, i, j);
        BlocksRest(abc, s, n, m, i - n - m, j - n - m);
      }
    }
  }

  /** Too many digits in a row are in the first number or in the rest. */
  lemma LongSplit(abc: Alphabet, s: string, n: nat, m: nat)
    requires n == Run(abc, s, false) < |s| && m == Run(abc, s[n..], true)
    ensures Long(abc, s) <==> m > MAX_INT_DIGITS || Long(abc, s[n + m..])
  {
    hide TooLong, Run;
    var rest := s[n + m..];
    RunsThere(abc, s, n, m);
    if m > MAX_INT_DIGITS {
      LongWindow(abc, s, n, m);
    }
    if i: nat :| TooLong(abc, rest, i) {
      LongRest(abc, s, n, m, i);
    }
    if i: nat :| TooLong(abc, s, i) {
      LongAfter(abc, s, n, m, i);
      if i >= n + m {
        LongRest(abc, s, n, m, i - n - m);
      }
    }
  }

  lemma LongWindow(abc: Alphabet, s: string, n: nat, m: nat)
    requires m > MAX_INT_DIGITS && n + m <= |s| && forall k | n <= k < n + m :: abc.decimal(s[k])
    ensures TooLong(abc, s, n)
  {
  }

  lemma LongRest(abc: Alphabet, s: string, n: nat, m: nat, i: nat)
    requires n + m <= |s|
    ensures TooLong(abc, s[n + m..], i) <==> TooLong(abc, s, n + m + i)
  {
    var rest := s[n + m..];
    assert forall k | 0 <= k < |rest| :: rest[k] == s[n + m + k];
    assert forall k | n + m <= k < |s| :: s[k] == rest[k - n - m];
  }

  lemma LongAfter(abc: Alphabet, s: string, n: nat, m: nat, i: nat)
    requires n == Run(abc, s, false) < |s| && m == Run(abc, s[n..], true) && TooLong(abc, s, i)
    ensures n + m <= i || m > MAX_INT_DIGITS
  {
    assert abc.decimal(s[i]);
    if n + m < |s| {
      assert s[n..][m] == s[n + m] && !abc.decimal(s[n + m]);
    }
  }

  lemma BlocksOrdered(abc: Alphabet, s: string, i: nat, j: nat)
    requires Blocks(abc, s, i, j)
    ensures i < j
  {
  }

  lemma RunsThere(abc: Alphabet, s: string, n: nat, m: nat)
    requires n == Run(abc, s, false) < |s| && m == Run(abc, s[n..], true)
    ensures m > 0 && n + m <= |s| && forall k | n <= k < n + m :: abc.decimal(s[k])
  {
    assert s[n..][0] == s[n];
    assert forall k | n <= k < n + m :: s[k] == s[n..][k - n];
  }

  /**
    A name has a sort key exactly when no stretch between its numbers consists of
    digits that are not decimal, and no number has more digits than int() takes.
   */
  lemma {:induction false} SortKeyExactly(abc: Alphabet, s: string)
    requires Coherent(abc)
    ensures SortKey(abc, s) == if Stray(abc, s) || Long(abc, s) then Raised else Ok(NaturalKey(abc, s))
    decreases |s|
  {
    hide Stray, Long, AllDigits, Run, Coherent, NaturalKey, SortKey;
    var n := Run(abc, s, false);
    if n == |s| {
      LastPart(abc, s);
    } else {
      var m := Run(abc, s[n..], true);
      StraySplit(abc, s, n, m);
      LongSplit(abc, s, n, m);
      KeyUnfold(abc, s, n, m);
      SortKeyExactly(abc, s[n + m..]);
      FirstParts(abc, s, n, m, s[..n], s[n..n + m], s[n + m..]);
    }
  }

  lemma AtomsCons(abc: Alphabet, part: string, parts: seq<string>)
    ensures AtomsOf(abc, [part] + parts)
            == if AtomOf(abc, part).Ok? && AtomsOf(abc, parts).Ok?
               then Ok([AtomOf(abc, part).value] + AtomsOf(abc, parts).value) else Raised
  {
    hide AtomOf;
    assert ([part] + parts)[1..] == parts;
  }

  /** A part of text raises exactly when all its characters are digits; a part of decimal digits when it is too long. */
  lemma PartAtoms(abc: Alphabet, text: string, digits: string)
    requires Coherent(abc) && (forall i | 0 <= i < |text| :: !abc.decimal(text[i]))
    requires digits != "" && forall i | 0 <= i < |digits| :: abc.decimal(digits[i])
    ensures AtomOf(abc, text) == if AllDigits(abc, text) then Raised else Ok(Text(abc.lower(text)))
    ensures AtomOf(abc, digits) == if |digits| > MAX_INT_DIGITS then Raised else Ok(Number(Value(abc, digits)))
  {
    hide Value;
    assert AllDigits(abc, text) ==> !abc.decimal(text[0]);
  }

  lemma NothingLong(abc: Alphabet, s: string, i: nat)
    requires Run(abc, s, false) == |s|
    ensures !TooLong(abc, s, i)
  {
    if i < |s| {
      assert !abc.decimal(s[i]);
    }
  }

  lemma LastPart(abc: Alphabet, s: string)
    requires Run(abc, s, false) == |s|
    ensures (Stray(abc, s) <==> AllDigits(abc, s)) && !Long(abc, s)
    ensures SortKey(abc, s) == if AllDigits(abc, s) then Raised else Ok([Text(abc.lower(s))])
    ensures NaturalKey(abc, s) == [Text(abc.lower(s))]
  {
    BlocksFirst(abc, s, |s|);
    assert s[..|s|] == s;
    assert !Long(abc, s) by {
      forall i: nat
        ensures !TooLong(abc, s, i)
      {
        NothingLong(abc, s, i);
      }
    }
    assert Parts(abc, s) == [s] && [s] + [] == [s];
    assert AllDigits(abc, s) ==> !abc.decimal(s[0]);
    hide Parts, NaturalKey, AllDigits, Stray, Long, Run;
    AtomsCons(abc, s, []);
    assert AtomsOf(abc, []) == Ok([]);
    assert forall x: Atom :: [x] + [] == [x];
  }

  lemma FirstParts(abc: Alphabet, s: string, n: nat, m: nat, text: string, digits: string, rest: string)
    requires Coherent(abc) && n == Run(abc, s, false) < |s| && m == Run(abc, s[n..], true) && m > 0
    requires text == s[..n] && digits == s[n..n + m] && rest == s[n + m..]
    ensures SortKey(abc, s)
            == if AllDigits(abc, text) || m > MAX_INT_DIGITS || SortKey(abc, rest).Raised? then Raised
               else Ok([Text(abc.lower(text)), Number(Value(abc, digits))] + SortKey(abc, rest).value)
  {
    hide Value, Parts, AllDigits, AtomOf, AtomsOf, Coherent, Run;
    PartsUnfold(abc, s, n, m);
    FirstRuns(abc, s, n, m, text, digits);
    PartAtoms(abc, text, digits);
    TwoAtoms(abc, text, digits, Parts(abc, rest));
  }

  lemma FirstRuns(abc: Alphabet, s: string, n: nat, m: nat, text: string, digits: string)
    requires n == Run(abc, s, false) < |s| && m == Run(abc, s[n..], true) && m > 0
    requires text == s[..n] && digits == s[n..n + m]
    ensures forall i | 0 <= i < |text| :: !abc.decimal(text[i])
    ensures |digits| == m && forall i | 0 <= i < |digits| :: abc.decimal(digits[i])
  {
    RunsThere(abc, s, n, m);
    hide Run;
    assert forall i | 0 <= i < m :: digits[i] == s[n + i];
  }

  lemma TwoAtoms(abc: Alphabet, text: string, digits: string, rest: seq<string>)
    requires AtomOf(abc, digits) == if |digits| > MAX_INT_DIGITS then Raised else Ok(Number(Value(abc, digits)))
    requires AtomOf(abc, text) == if AllDigits(abc, text) then Raised else Ok(Text(abc.lower(text)))
    ensures AtomsOf(abc, [text, digits] + rest)
            == if AllDigits(abc, text) || |digits| > MAX_INT_DIGITS || AtomsOf(abc, rest).Raised? then Raised
               else Ok([Text(abc.lower(text)), Number(Value(abc, digits))] + AtomsOf(abc, rest).value)
  {
    hide *;
    assert [text, digits] + rest == [text] + ([digits] + rest);
    AtomsCons(abc, text, [digits] + rest);
    AtomsCons(abc, digits, rest);
    if AtomsOf(abc, rest).Ok? {
      var (x, y, k) := (Text(abc.lower(text)), Number(Value(abc, digits)), AtomsOf(abc, rest).value);
      assert [x] + ([y] + k) == [x, y] + k;
    }
  }

  lemma KeyUnfold(abc: Alphabet, s: string, n: nat, m: nat)
    requires n == Run(abc, s, false) < |s| && m == Run(abc, s[n..], true) && m > 0
    ensures NaturalKey(abc, s)
            == [Text(abc.lower(s[..n])), Number(Value(abc, s[n..n + m]))] + NaturalKey(abc, s[n + m..])
  {
    hide Run, Value;
  }

  lemma PartsUnfold(abc: Alphabet, s: string, n: nat, m: nat)
    requires n == Run(abc, s, false) < |s| && m == Run(abc, s[n..], true) && m > 0
    ensures Parts(abc, s) == [s[..n], s[n..n + m]] + Parts(abc, s[n + m..])
  {
    hide Run;
  }

  /** Any two names that have sort keys compare without mixing text and number. */
  lemma SortKeysCompare(abc: Alphabet, s: string, t: string)
    requires Coherent(abc) && SortKey(abc, s).Ok? && SortKey(abc, t).Ok?
    ensures Compare(SortKey(abc, s).value, SortKey(abc, t).value) != Mixed
    ensures Compare(SortKey(abc, s).value, SortKey(abc, t).value) == CompareNames(abc, s, t)
  {
    SortKeyExactly(abc, s);
    SortKeyExactly(abc, t);
    hide *;
    NeverMixes(abc, s, t);
    ComparesNames(abc, s, t);
  }

  lemma ComparesNames(abc: Alphabet, s: string, t: string)
    ensures CompareNames(abc, s, t) == Compare(NaturalKey(abc, s), NaturalKey(abc, t))
  {
  }

  /** An ASCII name has a sort key exactly when no number in it has more digits than int() takes. */
  lemma AsciiExactly(s: string)
    ensures SortKey(ASCII, s) == if Long(ASCII, s) then Raised else Ok(NaturalKey(ASCII, s))
  {
    forall i: nat, j: nat
      ensures !Blocks(ASCII, s, i, j)
    {
      assert i < j <= |s| ==> ASCII.decimal(s[i]) == ASCII.digit(s[i]);
    }
    SortKeyExactly(ASCII, s);
  }

  /** In an alphabet with a digit that is not decimal, such as a raised two, a page named by it alone has none. */
  lemma RaisedDigitRaises(abc: Alphabet, c: char)
    requires Coherent(abc) && abc.digit(c) && !abc.decimal(c)
    ensures SortKey(abc, [c]).Raised?
  {
    assert Blocks(abc, [c], 0, 1);
    SortKeyExactly(abc, [c]);
  }

  // ------------------------------------------------------ names of one key

  function Rejoined(parts: seq<string>): string { if parts == [] then "" else parts[0] + Rejoined(parts[1..]) }

  /** The parts of a name: texts without a decimal digit and runs of them, in turn, that make up the name. */
  lemma {:induction false} PartsExactly(abc: Alphabet, s: string)
    ensures Rejoined(Parts(abc, s)) == s && |Parts(abc, s)| % 2 == 1 && InTurn(abc, Parts(abc, s))
    decreases |s|
  {
    hide Parts, Run, InTurn;
    var n := Run(abc, s, false);
    if n == |s| {
      OnePart(abc, s);
    } else {
      var m := Run(abc, s[n..], true);
      RunsThere(abc, s, n, m);
      PartsUnfold(abc, s, n, m);
      PartsExactly(abc, s[n + m..]);
      ThreeParts(abc, s, n, m, Parts(abc, s[n + m..]));
      FirstRuns(abc, s, n, m, s[..n], s[n..n + m]);
      TurnsOn(abc, s[..n], s[n..n + m], Parts(abc, s[n + m..]));
    }
  }

  /** Texts without a decimal digit and runs of them, in turn. */
  predicate InTurn(abc: Alphabet, parts: seq<string>) {
    forall i | 0 <= i < |parts| ::
      if i % 2 == 0 then forall k | 0 <= k < |parts[i]| :: !abc.decimal(parts[i][k])
      else Digits(abc, parts[i])
  }

  lemma OnePart(abc: Alphabet, s: string)
    requires Run(abc, s, false) == |s|
    ensures Parts(abc, s) == [s] && Rejoined([s]) == s && InTurn(abc, [s])
  {
    assert [s][1..] == [] && s + "" == s;
  }

  lemma TurnsOn(abc: Alphabet, text: string, digits: string, rest: seq<string>)
    requires (forall k | 0 <= k < |text| :: !abc.decimal(text[k])) && Digits(abc, digits) && InTurn(abc, rest)
    ensures InTurn(abc, [text, digits] + rest)
  {
    hide Digits;
    var all := [text, digits] + rest;
    forall i | 0 <= i < |all|
      ensures if i % 2 == 0 then forall k | 0 <= k < |all[i]| :: !abc.decimal(all[i][k]) else Digits(abc, all[i])
    {
      if i >= 2 {
        assert all[i] == rest[i - 2] && i % 2 == (i - 2) % 2;
      }
    }
  }

  lemma ThreeParts(abc: Alphabet, s: string, n: nat, m: nat, rest: seq<string>)
    requires n + m <= |s| && Rejoined(rest) == s[n + m..]
    ensures Rejoined([s[..n], s[n..n + m]] + rest) == s
  {
    var all := [s[..n], s[n..n + m]] + rest;
    assert all[1..] == [s[n..n + m]] + rest && all[1..][1..] == rest;
  }

  /** Two names have one key exactly when their texts agree but for case, and their numbers in value. */
  lemma {:induction false} SameKeyExactly(abc: Alphabet, s: string, t: string)
    ensures var (p, q) := (Parts(abc, s), Parts(abc, t));
            NaturalKey(abc, s) == NaturalKey(abc, t)
            <==> |p| == |q| && forall i | 0 <= i < |p| ::
                   if i % 2 == 0 then abc.lower(p[i]) == abc.lower(q[i]) else Value(abc, p[i]) == Value(abc, q[i])
  {
    hide Parts, NaturalKey, Value;
    KeyOfParts(abc, s);
    KeyOfParts(abc, t);
  }

  predicate Items(abc: Alphabet, parts: seq<string>, k: Key) {
    |k| == |parts| && forall i | 0 <= i < |parts| ::
      k[i] == if i % 2 == 0 then Text(abc.lower(parts[i])) else Number(Value(abc, parts[i]))
  }

  /** The key has one item for each part. */
  lemma {:induction false} KeyOfParts(abc: Alphabet, s: string)
    ensures Items(abc, Parts(abc, s), NaturalKey(abc, s))
    decreases |s|
  {
    hide Parts, NaturalKey, Run, Value, Items;
    var n := Run(abc, s, false);
    if n == |s| {
      OneItem(abc, s);
    } else {
      var m := Run(abc, s[n..], true);
      RunsThere(abc, s, n, m);
      PartsUnfold(abc, s, n, m);
      KeyUnfold(abc, s, n, m);
      KeyOfParts(abc, s[n + m..]);
      TwoItems(abc, s[..n], s[n..n + m], Parts(abc, s[n + m..]), NaturalKey(abc, s[n + m..]));
    }
  }

  lemma OneItem(abc: Alphabet, s: string)
    requires Run(abc, s, false) == |s|
    ensures Items(abc, Parts(abc, s), NaturalKey(abc, s))
  {
  }

  lemma TwoItems(abc: Alphabet, text: string, digits: string, parts: seq<string>, k: Key)
    requires Items(abc, parts, k)
    ensures Items(abc, [text, digits] + parts, [Text(abc.lower(text)), Number(Value(abc, digits))] + k)
  {
    hide Value;
    var (all, key) := ([text, digits] + parts, [Text(abc.lower(text)), Number(Value(abc, digits))] + k);
    forall i | 0 <= i < |all|
      ensures key[i] == if i % 2 == 0 then Text(abc.lower(all[i])) else Number(Value(abc, all[i]))
    {
      if i >= 2 {
        assert all[i] == parts[i - 2] && key[i] == k[i - 2] && i % 2 == (i - 2) % 2;
      }
    }
  }
}
