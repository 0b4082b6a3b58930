/**
  Writing the pages of a converted archive and validating what was written
  (core/inkdrop_archive_conversion.py).
 */
module PageArchive {
  import opened Outcomes
  import opened NaturalOrder

  /** A page file: its path below the extraction directory, and its bytes. */
  datatype Page = Page(path: string, data: string)

  // ------------------------------------------------------------------ page order

  function Before(a: Page, b: Page): Order { CompareNames(ASCII, a.path, b.path) }

  predicate Ordered(s: seq<Page>) {
    forall i, j | 0 <= i < j < |s| :: Before(s[i], s[j]) in {Less, Equal}
  }

  /** The pages whose names have one key, in order. */
  function Tied(s: seq<Page>, k: Key): seq<Page> {
    if s == [] then []
    else Tied(s[..|s| - 1], k) + if NaturalKey(ASCII, s[|s| - 1].path) == k then [s[|s| - 1]] else []
  }

  /** r has the pages of s in natural order, those with equal keys as s has them. */
  ghost predicate StablySorted(s: seq<Page>, r: seq<Page>) {
    multiset(r) == multiset(s) && Ordered(r) && forall k :: Tied(r, k) == Tied(s, k)
  }

  /** Put a page after the last one that does not follow it. */
  function Place(r: seq<Page>, p: Page): seq<Page> {
    if r == [] then [p]
    else if Before(p, r[|r| - 1]) == Less then Place(r[..|r| - 1], p) + [r[|r| - 1]]
    else r + [p]
  }

  /** pages.sort(key=natural_sort_key) */
  function Sorted(s: seq<Page>): seq<Page> {
    if s == [] then [] else Place(Sorted(s[..|s| - 1]), s[|s| - 1])
  }

  lemma TiedAfter(s: seq<Page>, p: Page, k: Key)
    ensures Tied(s + [p], k) == Tied(s, k) + if NaturalKey(ASCII, p.path) == k then [p] else []
  {
    assert (s + [p])[..|s|] == s;
  }

  lemma {:induction false} PlaceKeeps(r: seq<Page>, p: Page)
    ensures multiset(Place(r, p)) == multiset(r + [p])
    ensures |Place(r, p)| == |r| + 1
  {
    if r != [] && Before(p, r[|r| - 1]) == Less {
      PlaceKeeps(r[..|r| - 1], p);
      assert r == r[..|r| - 1] + [r[|r| - 1]];
    }
  }

  lemma NotBeforeOrder(a: Page, b: Page)
    ensures Before(b, a) != Less <==> Before(a, b) in {Less, Equal}
  {
    hide NaturalKey, Compare;
    NeverMixes(ASCII, a.path, b.path);
  }

  lemma OrderTransitive(a: Page, b: Page, c: Page)
    requires Before(a, b) in {Less, Equal} && Before(b, c) in {Less, Equal}
    ensures Before(a, c) in {Less, Equal}
  {
    hide NaturalKey, Compare;
    NeverMixes(ASCII, a.path, b.path);
    NeverMixes(ASCII, b.path, c.path);
    NeverMixes(ASCII, a.path, c.path);
    if Before(a, b) == Less && Before(b, c) == Less {
      NamesTransitive(ASCII, a.path, b.path, c.path);
    }
  }

  /** A page less than the last of an ordered run stays below everything placed there. */
  lemma {:induction false} PlaceOrders(r: seq<Page>, p: Page)
    requires Ordered(r)
    ensures Ordered(Place(r, p))
    ensures forall q | q in Place(r, p) :: q in r || q == p
  {
    hide NaturalKey, Compare, CompareNames, Before;
    var n := |r| - 1;
    if r != [] && Before(p, r[n]) == Less {
      PlaceOrders(r[..n], p);
      NotBeforeOrder(p, r[n]);
      NotBeforeOrder(r[n], p);
      OrderedAppend(Place(r[..n], p), r[n]);
    } else if r != [] {
      NotBeforeOrder(r[n], p);
      forall q | q in r
        ensures Before(q, p) in {Less, Equal}
      {
        if q != r[n] {
          OrderTransitive(q, r[n], p);
        }
      }
      OrderedAppend(r, p);
    }
  }

  lemma OrderedAppend(r: seq<Page>, p: Page)
    requires Ordered(r) && forall q | q in r :: Before(q, p) in {Less, Equal}
    ensures Ordered(r + [p])
  {
    hide Before;
  }

  lemma {:induction false} PlaceStable(r: seq<Page>, p: Page, k: Key)
    ensures Tied(Place(r, p), k) == Tied(r + [p], k)
  {
    hide NaturalKey, Compare, CompareNames, Before, Tied;
    if r != [] && Before(p, r[|r| - 1]) == Less {
      var (front, last) := (r[..|r| - 1], r[|r| - 1]);
      PlaceStable(front, p, k);
      assert Place(r, p) == Place(front, p) + [last] && r == front + [last];
      hide *;
      OtherKey(p, last);
      TiedAfter(front, p, k);
      TiedAfter(Place(front, p), last, k);
      TiedAfter(front, last, k);
      TiedAfter(r, p, k);
    } else {
      assert Place(r, p) == r + [p];
    }
  }

  lemma OtherKey(p: Page, q: Page)
    requires Before(p, q) == Less
    ensures NaturalKey(ASCII, p.path) != NaturalKey(ASCII, q.path)
  {
    hide NaturalKey, Compare;
    NeverMixes(ASCII, p.path, q.path);
  }

  /** Sorting pages keeps them all, orders them, and leaves ties alone. */
  lemma {:induction false} SortedStably(s: seq<Page>)
    ensures StablySorted(s, Sorted(s)) && |Sorted(s)| == |s|
  {
    hide NaturalKey, Compare, Tied, Place;
    if s != [] {
      var (front, last) := (s[..|s| - 1], s[|s| - 1]);
      assert s == front + [last];
      SortedStably(front);
      PlaceKeeps(Sorted(front), last);
      PlaceOrders(Sorted(front), last);
      forall k
        ensures Tied(Sorted(s), k) == Tied(s, k)
      {
        PlaceStable(Sorted(front), last, k);
        TiedAfter(Sorted(front), last, k);
        TiedAfter(front, last, k);
      }
    }
  }

  lemma {:induction false} TiedLast(r: seq<Page>, k: Key)
    requires r != [] && NaturalKey(ASCII, r[|r| - 1].path) == k
    ensures Tied(r, k) != [] && Tied(r, k)[|Tied(r, k)| - 1] == r[|r| - 1]
  {
  }

  lemma NothingFollowsLast(s: seq<Page>, a: Page)
    requires Ordered(s) && a in s
    ensures Before(a, s[|s| - 1]) in {Less, Equal}
  {
    hide NaturalKey, Compare;
    NeverMixes(ASCII, a.path, a.path);
  }

  lemma OrderedFront(r: seq<Page>, n: nat)
    requires Ordered(r) && n <= |r|
    ensures Ordered(r[..n])
  {
    hide Before;
  }

  lemma LastsAgree(r: seq<Page>, q: seq<Page>)
    requires |r| == |q| > 0 && multiset(r) == multiset(q) && Ordered(r) && Ordered(q)
             && forall k :: Tied(r, k) == Tied(q, k)
    ensures r[|r| - 1] == q[|q| - 1]
  {
    hide NaturalKey, Compare, Tied, Ordered;
    var n := |r| - 1;
    var (a, b) := (r[n], q[n]);
    assert a in multiset(r) && b in multiset(q);
    NothingFollowsLast(q, a);
    NothingFollowsLast(r, b);
    NeverMixes(ASCII, a.path, b.path);
    TiedLast(r, NaturalKey(ASCII, a.path));
    TiedLast(q, NaturalKey(ASCII, b.path));
  }

  lemma Cancel<T>(a: seq<T>, b: seq<T>, t: seq<T>)
    requires a + t == b + t
    ensures a == b
  {
    assert |a| == |b|;
    assert a == (a + t)[..|a|] && b == (b + t)[..|b|];
  }

  lemma FrontsAgree(r: seq<Page>, q: seq<Page>, x: Page)
    requires multiset(r + [x]) == multiset(q + [x]) && forall k :: Tied(r + [x], k) == Tied(q + [x], k)
    ensures multiset(r) == multiset(q) && forall k :: Tied(r, k) == Tied(q, k)
  {
    hide NaturalKey, Tied;
    forall k
      ensures Tied(r, k) == Tied(q, k)
    {
      TiedAfter(r, x, k);
      TiedAfter(q, x, k);
      Cancel(Tied(r, k), Tied(q, k), if NaturalKey(ASCII, x.path) == k then [x] else []);
    }
    assert multiset(r) == multiset(r + [x]) - multiset{x} && multiset(q) == multiset(q + [x]) - multiset{x};
  }

  /** So the order is the only one a stable sort can give. */
  lemma {:induction false} OneStableOrder(r: seq<Page>, q: seq<Page>)
    requires multiset(r) == multiset(q) && Ordered(r) && Ordered(q) && forall k :: Tied(r, k) == Tied(q, k)
    ensures r == q
  {
    hide NaturalKey, Compare, Tied, Before, Ordered;
    assert |r| == |multiset(r)| == |multiset(q)| == |q|;
    if r != [] {
      var n := |r| - 1;
      LastsAgree(r, q);
      assert r == r[..n] + [r[n]] && q == q[..n] + [r[n]];
      FrontsAgree(r[..n], q[..n], r[n]);
      OrderedFront(r, n);
      OrderedFront(q, n);
      OneStableOrder(r[..n], q[..n]);
    }
  }

  // ---------------------------------------------------------------- stored names

  function DigitChar(d: nat): char
    requires d < 10
  {
    '0' + d as char
  }

  /** The decimal digits of n, at least width of them. */
  function Padded(n: nat, width: nat): string
    decreases n, width
  {
    if n < 10 && width <= 1 then [DigitChar(n)]
    else Padded(n / 10, if width == 0 then 0 else width - 1) + [DigitChar(n % 10)]
  }

  function Tens(width: nat): (t: nat)
    ensures t > 0
  {
    if width == 0 then 1 else 10 * Tens(width - 1)
  }

  lemma {:induction false} PaddedReads(n: nat, width: nat)
    ensures Digits(ASCII, Padded(n, width)) && Value(ASCII, Padded(n, width)) == n
    ensures width <= |Padded(n, width)|
    ensures width > 0 ==> (|Padded(n, width)| == width <==> n < Tens(width))
    decreases n, width
  {
    if n < 10 && width <= 1 {
      assert Padded(n, width)[..0] == "";
    } else {
      var w := if width == 0 then 0 else width - 1;
      PaddedReads(n / 10, w);
      var front := Padded(n / 10, w);
      assert Padded(n, width)[..|front|] == front;
      assert width == 1 ==> n >= 10;
    }
  }

  /** Two numerals of one length compare as their values do. */
  lemma {:induction false} NumeralsCompare(x: string, y: string)
    requires |x| == |y| && Digits(ASCII, x) && Digits(ASCII, y) && Value(ASCII, x) < Value(ASCII, y)
    ensures CompareText(x, y) == Less
  {
    var n := |x| - 1;
    var (a, b) := (x[..n], y[..n]);
    assert x == a + [x[n]] && y == b + [y[n]];
    if a == "" {
      assert CompareText(x, y) == Less;
    } else if Value(ASCII, a) < Value(ASCII, b) {
      NumeralsCompare(a, b);
      TextByPrefix(a, b, [x[n]], [y[n]]);
    } else {
      SameNumeral(a, b);
      SamePrefix(a, [x[n]], [y[n]]);
    }
  }

  lemma {:induction false} SameNumeral(a: string, b: string)
    requires |a| == |b| && Digits(ASCII, a) && Digits(ASCII, b) && Value(ASCII, a) == Value(ASCII, b)
    ensures a == b
  {
    var n := |a| - 1;
    assert a == a[..n] + [a[n]] && b == b[..n] + [b[n]];
    if n > 0 {
      SameNumeral(a[..n], b[..n]);
    }
  }

  lemma {:induction false} SamePrefix(p: string, a: string, b: string)
    ensures CompareText(p + a, p + b) == CompareText(a, b)
  {
    if p == "" {
      assert p + a == a && p + b == b;
    } else {
      assert (p + a)[1..] == p[1..] + a && (p + b)[1..] == p[1..] + b;
      SamePrefix(p[1..], a, b);
    }
  }

  lemma {:induction false} DigitsBound(x: string)
    requires forall i | 0 <= i < |x| :: IsDigit(x[i])
    ensures Value(ASCII, x) < Tens(|x|)
  {
    if x != "" {
      DigitsBound(x[..|x| - 1]);
    }
  }

  lemma {:induction false} TensGrow(a: nat, b: nat)
    requires a <= b
    ensures Tens(a) <= Tens(b)
  {
    if a < b {
      TensGrow(a, b - 1);
    }
  }

  /** max(4, len(str(n))) */
  function Width(n: nat): nat {
    if |Padded(n, 0)| < 4 then 4 else |Padded(n, 0)|
  }

  /** Every numeral up to n is padded to exactly the width for n. */
  lemma WidthFits(n: nat, i: nat)
    requires i <= n
    ensures |Padded(i, Width(n))| == Width(n)
  {
    PaddedReads(n, 0);
    DigitsBound(Padded(n, 0));
    TensGrow(|Padded(n, 0)|, Width(n));
    PaddedReads(i, Width(n));
  }

  /** Four digits, or as many as the number has. */
  lemma WidthExactly(n: nat)
    ensures Width(n) >= 4 && n < Tens(Width(n)) && (Width(n) > 4 ==> Tens(Width(n) - 1) <= n)
  {
    PaddedReads(n, 0);
    DigitsBound(Padded(n, 0));
    TensGrow(|Padded(n, 0)|, Width(n));
    Shortest(n);
  }

  /** Without padding a numeral does not begin with a zero that could be left out. */
  lemma {:induction false} Shortest(n: nat)
    ensures n >= 10 ==> Tens(|Padded(n, 0)| - 1) <= n
    ensures n < 10 ==> |Padded(n, 0)| == 1
    ensures |Padded(n, 0)| >= 1
  {
    if n >= 10 {
      Shortest(n / 10);
    }
  }

  // ------------------------------------------------------------------ file names

  const IMAGE_EXTS: set<string> := {".jpg", ".jpeg", ".png", ".webp", ".gif", ".avif"}

  function LastIndex(s: string, c: char): (r: Option<nat>)
    ensures r.Some? ==> r.value < |s| && s[r.value] == c && forall i | r.value < i < |s| :: s[i] != c
    ensures r.None? ==> c !in s
  {
    if s == "" then None
    else if s[|s| - 1] == c then Some(|s| - 1)
    else LastIndex(s[..|s| - 1], c)
  }

  function Slashed(s: string): (r: string)
    ensures |r| == |s|
  {
    seq(|s|, i requires 0 <= i < |s| => if s[i] == '\\' then '/' else s[i])
  }

  function FileName(path: string): string {
    match LastIndex(path, '/')
    case None => path
    case Some(i) => path[i + 1..]
  }

  /** pathlib's suffix of a path's last component. */
  function Suffix(path: string): string {
    var name := FileName(path);
    match LastIndex(name, '.')
    case None => ""
    case Some(i) => if 0 < i < |name| - 1 then name[i..] else ""
  }

  predicate IsImage(name: string) { Lower(Suffix(Slashed(name))) in IMAGE_EXTS }

  function StoredName(index: nat, width: nat, page: Page): string {
    Padded(index, width) + Lower(Suffix(Slashed(page.path)))
  }

  /** In an archive of n pages, stored names sort by code point as the pages are numbered. */
  lemma StoredOrder(n: nat, i: nat, j: nat, p: Page, q: Page)
    requires i < j <= n
    ensures CompareText(StoredName(i, Width(n), p), StoredName(j, Width(n), q)) == Less
  {
    WidthFits(n, i);
    WidthFits(n, j);
    PaddedReads(i, Width(n));
    PaddedReads(j, Width(n));
    hide Padded, Suffix, Lower, Slashed, Width, CompareText, Value;
    NumeralsCompare(Padded(i, Width(n)), Padded(j, Width(n)));
    TextByPrefix(Padded(i, Width(n)), Padded(j, Width(n)), Lower(Suffix(Slashed(p.path))),
                 Lower(Suffix(Slashed(q.path))));
  }

  /** The last component of a path: what follows its last slash. */
  predicate IsLastPart(path: string, name: string) {
    |name| <= |path| && path[|path| - |name|..] == name && '/' !in name
    && (|name| < |path| ==> path[|path| - |name| - 1] == '/')
  }

  /** The suffix begins at the last dot of the name, which is neither its first character nor its last. */
  predicate EndsWith(name: string, suffix: string) {
    |suffix| >= 2 && |suffix| < |name| && name[|name| - |suffix|..] == suffix && suffix[0] == '.'
    && '.' !in suffix[1..]
  }

  lemma SuffixExactly(path: string)
    ensures IsLastPart(path, FileName(path))
    ensures if Suffix(path) == "" then forall e ::
        !EndsWith(FileName(path), e) else EndsWith(FileName(path), Suffix(path))
  {
    var name := FileName(path);
    if LastIndex(path, '/').Some? {
      var i := LastIndex(path, '/').value;
      assert forall k | 0 <= k < |name| :: name[k] == path[i + 1 + k];
    }
    var dot := LastIndex(name, '.');
    forall e | EndsWith(name, e)
      ensures dot == Some(|name| - |e|)
    {
      assert name[|name| - |e|] == e[0];
      assert forall k | |name| - |e| < k < |name| :: name[k] == e[1..][k - (|name| - |e|) - 1];
    }
    if dot.Some? {
      assert forall k | 1 <= k < |name[dot.value..]| :: name[dot.value..][k] == name[dot.value + k];
    }
  }

  predicate PlainExtension(e: string) {
    |e| > 1 && e[0] == '.' && forall i | 0 < i < |e| :: e[i] !in {'.', '/', '\\'} && !('A' <= e[i] <= 'Z')
  }

  lemma ExtensionsPlain(e: string)
    requires e in IMAGE_EXTS
    ensures PlainExtension(e) && Lower(e) == e
  {
  }

  lemma SuffixOf(x: string, e: string)
    requires Digits(ASCII, x) && PlainExtension(e)
    ensures Suffix(Slashed(x + e)) == e
  {
    var s := x + e;
    assert forall i | 0 <= i < |s| :: s[i] == if i < |x| then x[i] else e[i - |x|];
    assert Slashed(s) == s;
    assert FileName(s) == s;
    assert s[|x|] == '.' && s[|x|..] == e;
    assert LastIndex(s, '.') == Some(|x|);
  }

  /** A page keeps its kind under its stored name. */
  lemma StoredIsImage(index: nat, width: nat, p: Page)
    requires IsImage(p.path)
    ensures IsImage(StoredName(index, width, p))
  {
    PaddedReads(index, width);
    hide Padded, Suffix, Slashed, Lower;
    var e := Lower(Suffix(Slashed(p.path)));
    ExtensionsPlain(e);
    SuffixOf(Padded(index, width), e);
  }

  // --------------------------------------------------------------------- writing

  /** A member of a written archive; no data means its checksum or its stream is bad. */
  datatype Member = Member(name: string, isDir: bool, data: Option<string>)

  /** One line of the manifest. */
  datatype Line = Line(stored: string, source: string, digest: string, bytes: nat)

  const COMIC_INFO := "ComicInfo.xml"

  function PageMember(ordered: seq<Page>, i: nat): Member
    requires i < |ordered|
  {
    Member(StoredName(i + 1, Width(|ordered|), ordered[i]), false, Some(ordered[i].data))
  }

  function PageLine(ordered: seq<Page>, i: nat, digest: string -> string): Line
    requires i < |ordered|
  {
    Line(StoredName(i + 1, Width(|ordered|), ordered[i]), ordered[i].path, digest(ordered[i].data), |ordered[i].data|)
  }

  function PageMembers(ordered: seq<Page>): (m: seq<Member>)
    ensures |m| == |ordered|
  {
    seq(|ordered|, i requires 0 <= i < |ordered| => PageMember(ordered, i))
  }

  function Manifest(ordered: seq<Page>, digest: string -> string): (m: seq<Line>)
    ensures |m| == |ordered|
  {
    seq(|ordered|, i requires 0 <= i < |ordered| => PageLine(ordered, i, digest))
  }

  /** The members that are not pages. */
  function OtherMembers(comicinfo: Option<string>, extra: seq<(string, string)>): seq<Member> {
    (if comicinfo.Some? then [Member(COMIC_INFO, false, comicinfo)] else [])
    + seq(|extra|, i requires 0 <= i < |extra| => Member(extra[i].0, false, Some(extra[i].1)))
  }

  /** _write_page_archive: leading pages first, then the pages in natural order, then everything else. */
  method WritePageArchive(pages: seq<Page>, leading: seq<Page>, comicinfo: Option<string>, extra: seq<(string, string)>,
                          digest: string -> string)
    returns (archive: seq<Member>, manifest: seq<Line>)
    ensures archive == PageMembers(leading + Sorted(pages)) + OtherMembers(comicinfo, extra)
    ensures manifest == Manifest(leading + Sorted(pages), digest)
  {
    hide PageMembers, Manifest, Sorted, StoredName, Width;
    var ordered := leading + Sorted(pages);
    var width := Width(|ordered|);
    archive, manifest := [], [];
    for i := 0 to |ordered|
      invariant archive == PageMembers(ordered)[..i] && manifest == Manifest(ordered, digest)[..i]
    {
      var stored := StoredName(i + 1, width, ordered[i]);
      NextPage(ordered, i, digest);
      archive := archive + [Member(stored, false, Some(ordered[i].data))];
      manifest := manifest + [Line(stored, ordered[i].path, digest(ordered[i].data), |ordered[i].data|)];
    }
    archive := AppendOthers(archive, comicinfo, extra);
  }

  method AppendOthers(archive: seq<Member>, comicinfo: Option<string>, extra: seq<(string, string)>)
    returns (archive': seq<Member>)
    ensures archive' == archive + OtherMembers(comicinfo, extra)
  {
    archive' := archive;
    if comicinfo.Some? {
      archive' := archive' + [Member(COMIC_INFO, false, comicinfo)];
    }
    ghost var written := archive';
    for i := 0 to |extra|
      invariant archive' == written
                + seq(|extra|, k requires 0 <= k < |extra| => Member(extra[k].0, false, Some(extra[k].1)))[..i]
    {
      archive' := archive' + [Member(extra[i].0, false, Some(extra[i].1))];
    }
  }

  lemma NextPage(ordered: seq<Page>, i: nat, digest: string -> string)
    requires i < |ordered|
    ensures PageMembers(ordered)[..i + 1]
            == PageMembers(ordered)[..i]
               + [Member(StoredName(i + 1, Width(|ordered|), ordered[i]), false, Some(ordered[i].data))]
    ensures Manifest(ordered, digest)[..i + 1]
            == Manifest(ordered, digest)[..i]
               + [Line(StoredName(i + 1, Width(|ordered|), ordered[i]), ordered[i].path, digest(ordered[i].data),
                       |ordered[i].data|)]
  {
    hide StoredName, Width;
  }

  // ------------------------------------------------------------------ validation

  /** The expected digest of each stored name. */
  function Expected(manifest: seq<Line>): map<string, string> {
    if manifest == [] then map[]
    else Expected(manifest[..|manifest| - 1])[manifest[|manifest| - 1].stored := manifest[|manifest| - 1].digest]
  }

  /** The page members, in archive order. */
  function Images(archive: seq<Member>): seq<Member> {
    if archive == [] then []
    else
      var last := archive[|archive| - 1];
      Images(archive[..|archive| - 1]) + if !last.isDir && IsImage(last.name) then [last] else []
  }

  /** What the validator asks of one member. */
  predicate MemberPasses(m: Member, expected: map<string, string>, digest: string -> string) {
    m.isDir || (m.data.Some?
                && (IsImage(m.name) ==>
                      m.name in expected && m.data.value != "" && digest(m.data.value) == expected[m.name]))
  }

  predicate Passes(archive: seq<Member>, manifest: seq<Line>, preserved: bool, digest: string -> string) {
    |Images(archive)| == |Expected(manifest)|
    && (forall i | 0 <= i < |archive| :: MemberPasses(archive[i], Expected(manifest), digest))
    && (preserved ==> exists i :: 0 <= i < |archive| && !archive[i].isDir && archive[i].name == COMIC_INFO)
  }

  datatype Fault =
    | PageCountMismatch
    | UnexpectedPage(name: string)
    | DamagedMember
    | EmptyPage(name: string)
    | ContentMismatch(name: string)
    | ComicInfoMissing

  /** validate_cbz: the first fault, or none. */
  method ValidateCbz(archive: seq<Member>, manifest: seq<Line>, preserved: bool, digest: string -> string)
    returns (fault: Option<Fault>)
    ensures fault.None? <==> Passes(archive, manifest, preserved, digest)
  {
    hide IsImage, Expected;
    var expected := ReadManifest(manifest);
    var images, named := Count(archive);
    if images != |expected| { return Some(PageCountMismatch); }
    for i := 0 to |archive|
      invariant forall j | 0 <= j < i :: MemberPasses(archive[j], expected, digest)
    {
      var m := archive[i];
      if m.isDir { continue; }
      var isPage := IsImage(m.name);
      if isPage && m.name !in expected { return Some(UnexpectedPage(m.name)); }
      if m.data.None? { return Some(DamagedMember); }
      if !isPage { continue; }
      if m.data.value == "" { return Some(EmptyPage(m.name)); }
      if digest(m.data.value) != expected[m.name] { return Some(ContentMismatch(m.name)); }
    }
    if preserved && !named { return Some(ComicInfoMissing); }
    fault := None;
  }

  method ReadManifest(manifest: seq<Line>) returns (expected: map<string, string>)
    ensures expected == Expected(manifest)
  {
    expected := map[];
    for i := 0 to |manifest|
      invariant expected == Expected(manifest[..i])
    {
      ExpectedNext(manifest, i);
      expected := expected[manifest[i].stored := manifest[i].digest];
    }
    assert manifest[..|manifest|] == manifest;
  }

  method Count(archive: seq<Member>) returns (images: nat, named: bool)
    ensures images == |Images(archive)|
    ensures named <==> exists j :: 0 <= j < |archive| && !archive[j].isDir && archive[j].name == COMIC_INFO
  {
    hide IsImage;
    images, named := 0, false;
    for i := 0 to |archive|
      invariant images == |Images(archive[..i])|
      invariant named <==> exists j :: 0 <= j < i && !archive[j].isDir && archive[j].name == COMIC_INFO
    {
      ImagesNext(archive, i);
      images := if !archive[i].isDir && IsImage(archive[i].name) then images + 1 else images;
      named := named || (!archive[i].isDir && archive[i].name == COMIC_INFO);
    }
    assert archive[..|archive|] == archive;
  }

  lemma ExpectedNext(manifest: seq<Line>, i: nat)
    requires i < |manifest|
    ensures Expected(manifest[..i + 1]) == Expected(manifest[..i])[manifest[i].stored := manifest[i].digest]
  {
    assert manifest[..i + 1][..i] == manifest[..i];
  }

  lemma ImagesNext(archive: seq<Member>, i: nat)
    requires i < |archive|
    ensures Images(archive[..i + 1]) == Images(archive[..i]) + if !archive[i].isDir && IsImage(archive[i].name)
                                                               then [archive[i]] else []
  {
    assert archive[..i + 1][..i] == archive[..i];
  }

  // ------------------------------------------------------------- conserving pages

  predicate Increasing(names: seq<string>) {
    forall i, j | 0 <= i < j < |names| :: CompareText(names[i], names[j]) == Less
  }

  /** Of two increasing runs of one length, one cannot hold only names of the other without being it. */
  lemma IncreasingSame(a: seq<string>, b: seq<string>)
    requires Increasing(a) && Increasing(b) && |a| == |b| && forall i | 0 <= i < |a| :: a[i] in b
    ensures a == b
  {
    forall i | 0 <= i < |a|
      ensures a[i] == b[i]
    {
      var f := Ranks(a, b);
      RanksClimb(f, i, |a|);
    }
  }

  /** Where each name of a stands in b. */
  lemma Ranks(a: seq<string>, b: seq<string>) returns (f: seq<nat>)
    requires Increasing(a) && Increasing(b) && |a| == |b| && forall i | 0 <= i < |a| :: a[i] in b
    ensures |f| == |a| && (forall i | 0 <= i < |f| :: f[i] < |b| && b[f[i]] == a[i])
    ensures forall i, j | 0 <= i < j < |f| :: f[i] < f[j]
  {
    hide CompareText;
    f := [];
    while |f| < |a|
      invariant |f| <= |a|
      invariant forall i | 0 <= i < |f| :: f[i] < |b| && b[f[i]] == a[i]
    {
      var k: nat :| k < |b| && b[k] == a[|f|];
      f := f + [k];
    }
    forall i, j | 0 <= i < j < |f|
      ensures f[i] < f[j]
    {
      TextTotal(a[i], a[j]);
      TextTotal(a[i], a[i]);
    }
  }

  lemma {:induction false} RanksClimb(f: seq<nat>, i: nat, n: nat)
    requires |f| == n && (forall k | 0 <= k < n :: f[k] < n) && (forall k, j | 0 <= k < j < n :: f[k] < f[j]) && i < n
    ensures f[i] == i
  {
    RankAtLeast(f, i);
    RankAtMost(f, i, n - 1);
  }

  lemma {:induction false} RankAtLeast(f: seq<nat>, i: nat)
    requires (forall k, j | 0 <= k < j < |f| :: f[k] < f[j]) && i < |f|
    ensures i <= f[i]
  {
    if i > 0 {
      RankAtLeast(f, i - 1);
    }
  }

  lemma {:induction false} RankAtMost(f: seq<nat>, i: nat, last: nat)
    requires |f| == last + 1 && (forall k | 0 <= k <= last :: f[k] <= last)
             && (forall k, j | 0 <= k < j < |f| :: f[k] < f[j]) && i <= last
    ensures f[i] <= i
    decreases last - i
  {
    if i < last {
      RankAtMost(f, i + 1, last);
    }
  }

  function StoredNames(ordered: seq<Page>): (s: seq<string>)
    ensures |s| == |ordered|
  {
    seq(|ordered|, i requires 0 <= i < |ordered| => StoredName(i + 1, Width(|ordered|), ordered[i]))
  }

  lemma StoredIncreasing(ordered: seq<Page>)
    ensures Increasing(StoredNames(ordered))
  {
    hide StoredName, CompareText, Width;
    forall i, j | 0 <= i < j < |ordered|
      ensures CompareText(StoredNames(ordered)[i], StoredNames(ordered)[j]) == Less
    {
      StoredOrder(|ordered|, i + 1, j + 1, ordered[i], ordered[j]);
    }
  }

  lemma {:induction false} ExpectedOf(lines: seq<Line>)
    requires forall i, j | 0 <= i < j < |lines| :: lines[i].stored != lines[j].stored
    ensures |Expected(lines)| == |lines|
    ensures forall i | 0 <= i < |lines| ::
        lines[i].stored in Expected(lines) && Expected(lines)[lines[i].stored] == lines[i].digest
    ensures forall name | name in Expected(lines) :: exists i :: 0 <= i < |lines| && lines[i].stored == name
  {
    if lines != [] {
      var (front, last) := (lines[..|lines| - 1], lines[|lines| - 1]);
      assert lines == front + [last];
      ExpectedOf(front);
      assert Expected(lines) == Expected(front)[last.stored := last.digest];
      hide Expected;
      assert last.stored !in Expected(front);
      StoredAt(lines, |lines| - 1);
      forall name | name in Expected(front)
        ensures exists i :: 0 <= i < |lines| && lines[i].stored == name
      {
        var i :| 0 <= i < |front| && front[i].stored == name;
        StoredAt(lines, i);
      }
    }
  }

  lemma StoredAt(lines: seq<Line>, k: nat)
    requires k < |lines|
    ensures exists i :: 0 <= i < |lines| && lines[i].stored == lines[k].stored
  {
    assert lines[k].stored == lines[k].stored;
  }

  /** The manifest expects each page once, under its stored name. */
  lemma ManifestExpects(ordered: seq<Page>, digest: string -> string)
    ensures |Expected(Manifest(ordered, digest))| == |ordered|
    ensures forall name | name in Expected(Manifest(ordered, digest)) :: name in StoredNames(ordered)
    ensures forall i | 0 <= i < |ordered| :: StoredNames(ordered)[i] in Expected(Manifest(ordered, digest))
              && Expected(Manifest(ordered, digest))[StoredNames(ordered)[i]] == digest(ordered[i].data)
  {
    hide StoredName, Expected, CompareText;
    var lines := Manifest(ordered, digest);
    assert forall i | 0 <= i < |lines| :: lines[i].stored == StoredNames(ordered)[i];
    StoredIncreasing(ordered);
    forall i, j | 0 <= i < j < |lines|
      ensures lines[i].stored != lines[j].stored
    {
      TextTotal(lines[i].stored, lines[i].stored);
    }
    ExpectedOf(lines);
  }

  function Names(s: seq<Member>): (n: seq<string>)
    ensures |n| == |s|
  {
    seq(|s|, i requires 0 <= i < |s| => s[i].name)
  }

  /**
    Reading the pages of a validated archive in the order of their names gives
    exactly the pages that were written, in their order: r is any arrangement of
    its page members by strictly increasing name.
   */
  lemma ValidatedReadsPages(archive: seq<Member>, ordered: seq<Page>, preserved: bool, digest: string -> string,
                            r: seq<Member>)
    requires Passes(archive, Manifest(ordered, digest), preserved, digest)
    requires multiset(r) == multiset(Images(archive)) && Increasing(Names(r))
    requires forall a, b :: digest(a) == digest(b) ==> a == b
    ensures |r| == |ordered|
            && forall i | 0 <= i < |r| :: r[i].data == Some(ordered[i].data) && r[i].name == StoredNames(ordered)[i]
  {
    hide StoredName, Expected, CompareText, IsImage;
    assert |r| == |multiset(r)| == |Images(archive)|;
    ManifestExpects(ordered, digest);
    StoredIncreasing(ordered);
    ImagesPass(archive, Manifest(ordered, digest), digest);
    forall i | 0 <= i < |r|
      ensures Names(r)[i] in StoredNames(ordered) && r[i] in Images(archive)
    {
      assert r[i] in multiset(r);
    }
    IncreasingSame(Names(r), StoredNames(ordered));
  }

  lemma {:induction false} ImagesPass(archive: seq<Member>, manifest: seq<Line>, digest: string -> string)
    requires forall i | 0 <= i < |archive| :: MemberPasses(archive[i], Expected(manifest), digest)
    ensures forall m | m in Images(archive) :: m.data.Some? && m.name in Expected(manifest) && m.data.value != ""
              && digest(m.data.value) == Expected(manifest)[m.name]
  {
    hide Expected, IsImage;
    if archive != [] {
      ImagesPass(archive[..|archive| - 1], manifest, digest);
    }
  }

  // ------------------------------------------------------ what validation allows

  function Elements(s: seq<string>): set<string> { set x | x in s }

  predicate Distinct(s: seq<string>) { forall i, j | 0 <= i < j < |s| :: s[i] != s[j] }

  lemma {:induction false} CountElements(s: seq<string>)
    ensures |Elements(s)| <= |s|
    ensures |Elements(s)| == |s| <==> Distinct(s)
  {
    if s != [] {
      var (front, last) := (s[..|s| - 1], s[|s| - 1]);
      CountElements(front);
      assert s == front + [last];
      assert Elements(s) == Elements(front) + {last};
      assert last in front <==> last in Elements(front);
      assert Distinct(s) <==> Distinct(front) && last !in front;
    }
  }

  lemma FillsUp(a: seq<string>, b: seq<string>)
    requires |a| == |b| && Distinct(b) && forall i | 0 <= i < |a| :: a[i] in b
    ensures Distinct(a) <==> forall i | 0 <= i < |b| :: b[i] in a
  {
    CountElements(a);
    CountElements(b);
    assert Elements(a) <= Elements(b);
    assert (forall i | 0 <= i < |b| :: b[i] in a) ==> Elements(a) == Elements(b);
    if Distinct(a) {
      Covers(Elements(a), Elements(b));
      assert forall i | 0 <= i < |b| :: b[i] in Elements(b);
    }
  }

  lemma Covers<T>(a: set<T>, b: set<T>)
    requires a <= b && |a| == |b|
    ensures a == b
  {
    assert |b - a| == |b| - |a|;
  }

  lemma IncreasingDistinct(s: seq<string>)
    requires Increasing(s)
    ensures Distinct(s)
  {
    hide CompareText;
    forall i, j | 0 <= i < j < |s|
      ensures s[i] != s[j]
    {
      TextTotal(s[i], s[i]);
    }
  }

  /** The validator counts members, so it misses no lost page exactly when no name is stored twice. */
  lemma NoPageMissingExactly(archive: seq<Member>, ordered: seq<Page>, preserved: bool, digest: string -> string)
    requires Passes(archive, Manifest(ordered, digest), preserved, digest)
    ensures (forall i | 0 <= i < |ordered| :: StoredNames(ordered)[i] in Names(Images(archive)))
            <==> Distinct(Names(Images(archive)))
  {
    hide StoredName, Expected, CompareText, IsImage, Images;
    ManifestExpects(ordered, digest);
    StoredIncreasing(ordered);
    IncreasingDistinct(StoredNames(ordered));
    ImagesPass(archive, Manifest(ordered, digest), digest);
    forall i | 0 <= i < |Names(Images(archive))|
      ensures Names(Images(archive))[i] in StoredNames(ordered)
    {
      assert Images(archive)[i] in Images(archive);
    }
    FillsUp(Names(Images(archive)), StoredNames(ordered));
  }

  /** A page stored twice hides one that is missing. */
  lemma TwiceHidesMissing(p: Page, q: Page, digest: string -> string)
    requires IsImage(p.path) && p.data != ""
    ensures var archive := [PageMember([p, q], 0), PageMember([p, q], 0)];
            Passes(archive, Manifest([p, q], digest), false, digest)
            && StoredNames([p, q])[1] !in Names(Images(archive))
  {
    hide StoredName, Expected, CompareText, IsImage;
    var m := PageMember([p, q], 0);
    StoredIsImage(1, Width(2), p);
    ManifestExpects([p, q], digest);
    StoredIncreasing([p, q]);
    TextTotal(StoredNames([p, q])[0], StoredNames([p, q])[0]);
    assert StoredNames([p, q])[0] == m.name;
    ImagesAll([m, m]);
  }

  /** What the converter itself wrote validates exactly when no page is empty and no extra member is an image. */
  lemma WrittenValidates(ordered: seq<Page>, comicinfo: Option<string>, extra: seq<(string, string)>,
                         digest: string -> string)
    requires forall i | 0 <= i < |ordered| :: IsImage(ordered[i].path)
    ensures Passes(PageMembers(ordered) + OtherMembers(comicinfo, extra), Manifest(ordered, digest), comicinfo.Some?,
                   digest)
            <==> (forall i | 0 <= i < |ordered| :: ordered[i].data != "")
                 && (forall i | 0 <= i < |extra| :: !IsImage(extra[i].0))
  {
    hide StoredName, Expected, CompareText, IsImage, Images, Width;
    var pages, others := PageMembers(ordered), OtherMembers(comicinfo, extra);
    var archive := pages + others;
    var expected := Expected(Manifest(ordered, digest));
    ManifestExpects(ordered, digest);
    forall i | 0 <= i < |pages|
      ensures IsImage(pages[i].name) && pages[i].name == StoredNames(ordered)[i]
              && pages[i].data == Some(ordered[i].data) && !pages[i].isDir
      ensures MemberPasses(archive[i], expected, digest) <==> ordered[i].data != ""
    {
      StoredIsImage(i + 1, Width(|ordered|), ordered[i]);
      assert archive[i] == pages[i];
    }
    ImagesAll(pages);
    ImagesConcat(pages, others);
    OthersNotImages(comicinfo, extra);
    OthersPass(pages, comicinfo, extra, expected, digest);
  }

  /** Read in the order of their names, the pages are these, byte for byte. */
  predicate ReadsAs(read: seq<Member>, ordered: seq<Page>) {
    Increasing(Names(read)) && |read| == |ordered|
    && forall i | 0 <= i < |read| :: read[i].data == Some(ordered[i].data)
  }

  /**
    A conversion conserves its pages: its validated output reads as the leading pages, then
    the source pages in natural order.
   */
  lemma ConversionConservesPages(pages: seq<Page>, leading: seq<Page>, ordered: seq<Page>, comicinfo: Option<string>,
                                 extra: seq<(string, string)>,
                                 archive: seq<Member>, digest: string -> string)
    requires ordered == leading + Sorted(pages) && forall p | p in leading + pages :: IsImage(p.path)
    requires archive == PageMembers(ordered) + OtherMembers(comicinfo, extra)
    requires Passes(archive, Manifest(ordered, digest), comicinfo.Some?, digest)
    ensures ReadsAs(Images(archive), ordered) && StablySorted(pages, Sorted(pages))
  {
    hide StoredName, Expected, CompareText, IsImage, Images, Width, Passes, Sorted, Tied, Before, OtherMembers;
    SortedStably(pages);
    forall i | 0 <= i < |ordered|
      ensures IsImage(ordered[i].path)
    {
      assert i >= |leading| ==> ordered[i] in multiset(Sorted(pages));
      assert ordered[i] in leading + pages;
    }
    WrittenValidates(ordered, comicinfo, extra, digest);
    WrittenImages(ordered, comicinfo, extra);
    StoredIncreasing(ordered);
    assert Names(PageMembers(ordered)) == StoredNames(ordered);
  }

  lemma WrittenImages(ordered: seq<Page>, comicinfo: Option<string>, extra: seq<(string, string)>)
    requires forall i | 0 <= i < |ordered| :: IsImage(ordered[i].path)
    requires forall i | 0 <= i < |extra| :: !IsImage(extra[i].0)
    ensures Images(PageMembers(ordered) + OtherMembers(comicinfo, extra)) == PageMembers(ordered)
  {
    hide StoredName, IsImage, Images, Width;
    var pages := PageMembers(ordered);
    forall i | 0 <= i < |pages|
      ensures IsImage(pages[i].name) && !pages[i].isDir
    {
      StoredIsImage(i + 1, Width(|ordered|), ordered[i]);
    }
    ImagesAll(pages);
    ImagesConcat(pages, OtherMembers(comicinfo, extra));
    OthersNotImages(comicinfo, extra);
  }

  lemma {:induction false} ImagesAll(s: seq<Member>)
    requires forall i | 0 <= i < |s| :: !s[i].isDir && IsImage(s[i].name)
    ensures Images(s) == s
  {
    hide IsImage;
    if s != [] {
      ImagesAll(s[..|s| - 1]);
    }
  }

  lemma {:induction false} ImagesConcat(a: seq<Member>, b: seq<Member>)
    ensures Images(a + b) == Images(a) + Images(b)
  {
    hide IsImage;
    if b == [] {
      assert a + b == a;
    } else {
      assert (a + b)[..|a + b| - 1] == a + b[..|b| - 1];
      ImagesConcat(a, b[..|b| - 1]);
    }
  }

  lemma {:induction false} ImagesNone(s: seq<Member>)
    ensures Images(s) == [] <==> forall i | 0 <= i < |s| :: s[i].isDir || !IsImage(s[i].name)
  {
    hide IsImage, Images;
    if s == [] {
      assert Images(s) == [] by { ImagesAll(s); }
    } else {
      var n := |s| - 1;
      ImagesNone(s[..n]);
      ImagesNext(s, n);
      assert s[..n + 1] == s;
      assert forall i | 0 <= i < n :: s[..n][i] == s[i];
    }
  }

  lemma ComicInfoNoImage()
    ensures !IsImage(COMIC_INFO)
  {
    ComicInfoSuffix();
    hide Suffix, Slashed;
    assert Lower(".xml")[1] == 'x';
    forall e | e in IMAGE_EXTS
      ensures e != Lower(".xml")
    {
      assert e[1] != 'x';
    }
  }

  lemma ComicInfoSuffix()
    ensures Suffix(Slashed(COMIC_INFO)) == ".xml"
  {
    var s := COMIC_INFO;
    assert Slashed(s) == s;
    hide Slashed;
    assert LastIndex(s, '/') == None;
    assert FileName(s) == s;
    assert s[9] == '.' && forall i | 9 < i < |s| :: s[i] != '.';
    hide LastIndex, FileName;
    assert LastIndex(s, '.') == Some(9);
  }

  lemma OthersNotImages(comicinfo: Option<string>, extra: seq<(string, string)>)
    ensures Images(OtherMembers(comicinfo, extra)) == [] <==> forall i | 0 <= i < |extra| :: !IsImage(extra[i].0)
  {
    ComicInfoNoImage();
    hide IsImage, Images;
    var others := OtherMembers(comicinfo, extra);
    var k := if comicinfo.Some? then 1 else 0;
    assert forall i | 0 <= i < |extra| :: others[k + i].name == extra[i].0 && !others[k + i].isDir;
    assert forall i | k <= i < |others| :: others[i].name == extra[i - k].0;
    ImagesNone(others);
  }

  lemma OthersPass(pages: seq<Member>, comicinfo: Option<string>, extra: seq<(string, string)>,
                   expected: map<string, string>, digest: string -> string)
    ensures var archive := pages + OtherMembers(comicinfo, extra);
            (comicinfo.Some? ==> exists i :: 0 <= i < |archive| && !archive[i].isDir && archive[i].name == COMIC_INFO)
            && ((forall i | 0 <= i < |extra| :: !IsImage(extra[i].0)) ==>
                  forall i | |pages| <= i < |archive| :: MemberPasses(archive[i], expected, digest))
  {
    ComicInfoNoImage();
    hide IsImage;
    var archive := pages + OtherMembers(comicinfo, extra);
    if comicinfo.Some? {
      assert archive[|pages|].name == COMIC_INFO && !archive[|pages|].isDir;
    }
  }
}
