/** The Python string built-ins the converter relies on: substring search
    (`sub in s`), `s.split(sep)`, `s.strip()`, `s.lower()`, `s.startswith`,
    `s.endswith`, and `os.path.splitext` on a POSIX path. */
module Text {
  import opened Wrappers

  // ---------------------------------------------------------------------
  // Substring search
  // ---------------------------------------------------------------------

  /** `sub` occurs in `s` starting at index `j`. */
  predicate OccursAt(s: string, sub: string, j: int) {
    0 <= j && j + |sub| <= |s| && s[j..j + |sub|] == sub
  }

  /** Python's `sub in s`: the empty string is in every string, and nothing
      longer than `s` is in it. */
  predicate Contains(s: string, sub: string)
    ensures sub == [] ==> Contains(s, sub)
    ensures Contains(s, sub) ==> |sub| <= |s|
  {
    assert sub == [] ==> OccursAt(s, sub, 0);
    exists j :: 0 <= j <= |s| - |sub| && OccursAt(s, sub, j)
  }

  /** Occurrences in `s[1..]` are the occurrences in `s` shifted left by one. */
  lemma OccursAtShift(s: string, sub: string)
    requires s != []
    ensures forall j :: 1 <= j ==> (OccursAt(s, sub, j) <==> OccursAt(s[1..], sub, j - 1))
  {
    forall j | 1 <= j
      ensures OccursAt(s, sub, j) <==> OccursAt(s[1..], sub, j - 1)
    {
      if j + |sub| <= |s| {
        assert s[1..][j - 1..j - 1 + |sub|] == s[j..j + |sub|];
      }
    }
  }

  /** An occurrence inside the slice `s[a..b]` is an occurrence in `s`. */
  lemma OccursInSlice(s: string, a: nat, b: nat, sub: string, j: int)
    requires a <= b <= |s|
    ensures OccursAt(s[a..b], sub, j) ==> OccursAt(s, sub, a + j)
  {
    if OccursAt(s[a..b], sub, j) {
      forall k | 0 <= k < |sub| ensures s[a + j..a + j + |sub|][k] == sub[k] {
        assert sub[k] == s[a..b][j + k];
      }
      assert s[a + j..a + j + |sub|] == sub;
    }
  }

  /** An occurrence that ends within the prefix `s[..n]` is one of the prefix. */
  lemma OccursInPrefix(s: string, n: nat, sub: string, j: int)
    requires 0 <= j && j + |sub| <= n <= |s|
    ensures OccursAt(s[..n], sub, j) <==> OccursAt(s, sub, j)
  {
    assert s[..n][j..j + |sub|] == s[j..j + |sub|];
  }

  /** Being a substring is transitive. */
  lemma ContainsTransitive(s: string, t: string, u: string)
    requires Contains(s, t) && Contains(t, u)
    ensures Contains(s, u)
  {
    var i :| 0 <= i <= |s| - |t| && OccursAt(s, t, i);
    var j :| 0 <= j <= |t| - |u| && OccursAt(t, u, j);
    OccursInSlice(s, i, i + |t|, u, j);
    assert OccursAt(s, u, i + j);
  }

  /** A one-character substring is a member. */
  lemma ContainsChar(s: string, c: char)
    ensures Contains(s, [c]) <==> c in s
  {
    if c in s {
      var j :| 0 <= j < |s| && s[j] == c;
      assert s[j..j + 1] == [c];
      assert OccursAt(s, [c], j);
    }
    if Contains(s, [c]) {
      var j :| 0 <= j <= |s| - 1 && OccursAt(s, [c], j);
      assert s[j] == s[j..j + 1][0];
    }
  }

  /** A string contains another of its own length only if they are equal. */
  lemma ContainsSameLength(s: string, sub: string)
    requires |s| == |sub|
    ensures Contains(s, sub) <==> s == sub
  {
    if s == sub {
      assert OccursAt(s, sub, 0);
    }
  }

  /** A non-empty substring starts with one of the string's characters. */
  lemma ContainsFirstChar(s: string, sub: string)
    requires sub != [] && Contains(s, sub)
    ensures sub[0] in s
  {
    var j :| 0 <= j <= |s| - |sub| && OccursAt(s, sub, j);
    assert s[j] == s[j..j + |sub|][0];
  }

  /** No occurrence of `sub` begins before `i`, so none lies in `s[..i]`,
      nor in `s[..i + |sub| - 1]` (which stops one short of the occurrence
      at `i`). */
  lemma NoOccurrenceBefore(s: string, sub: string, i: nat)
    requires sub != [] && i + |sub| <= |s|
    requires forall j :: 0 <= j < i ==> !OccursAt(s, sub, j)
    ensures !Contains(s[..i], sub)
    ensures !Contains(s[..i + |sub| - 1], sub)
  {
    var n := i + |sub| - 1;
    forall j | 0 <= j
      ensures !OccursAt(s[..n], sub, j)
    {
      if j + |sub| <= n {
        OccursInPrefix(s, n, sub, j);
      }
    }
    forall j | 0 <= j
      ensures !OccursAt(s[..i], sub, j)
    {
      if j + |sub| <= i {
        OccursInPrefix(s, i, sub, j);
      }
    }
  }

  /** Python's `s.find(sub)`, with `None` for -1: the leftmost occurrence. */
  function IndexOf(s: string, sub: string): (r: Option<nat>)
    ensures r.None? <==> !Contains(s, sub)
    ensures r.Some? ==> OccursAt(s, sub, r.value)
    ensures r.Some? ==> forall j :: 0 <= j < r.value ==> !OccursAt(s, sub, j)
    decreases |s|
  {
    if |s| < |sub| then
      None
    else if s[..|sub|] == sub then
      assert OccursAt(s, sub, 0);
      Some(0)
    else
      OccursAtShift(s, sub);
      assert !OccursAt(s, sub, 0);
      match IndexOf(s[1..], sub)
      case None => None
      case Some(i) =>
        assert OccursAt(s, sub, i + 1);
        Some(i + 1)
  }

  // ---------------------------------------------------------------------
  // str.split(sep) and its inverse sep.join(pieces)
  // ---------------------------------------------------------------------

  /** Python's `sep.join(pieces)`; the inverse of `Split`. */
  function Join(pieces: seq<string>, sep: string): string
  {
    if |pieces| == 0 then ""
    else if |pieces| == 1 then pieces[0]
    else pieces[0] + sep + Join(pieces[1..], sep)
  }

  /** `pieces` cut `s` at the leftmost non-overlapping occurrences of `sep`:
      joining them with `sep` gives `s` back, no occurrence of `sep` starts
      inside a piece that a separator follows, and the last piece holds no
      occurrence at all. */
  predicate IsLeftmostSplit(pieces: seq<string>, s: string, sep: string)
    requires sep != ""
  {
    |pieces| >= 1 && Join(pieces, sep) == s &&
    (forall k :: 0 <= k < |pieces| - 1 ==> !Contains(pieces[k] + sep[..|sep| - 1], sep)) &&
    !Contains(pieces[|pieces| - 1], sep)
  }

  /** Python's `s.split(sep)` for a non-empty separator (Python raises on an
      empty one): empty pieces are kept. */
  function Split(s: string, sep: string): (r: seq<string>)
    requires sep != ""
    ensures IsLeftmostSplit(r, s, sep)
    ensures forall k :: 0 <= k < |r| ==> !Contains(r[k], sep)
    decreases |s|
  {
    match IndexOf(s, sep)
    case None => [s]
    case Some(i) =>
      var rest := Split(s[i + |sep|..], sep);
      SplitCons(s, sep, i, rest);
      [s[..i]] + rest
  }

  /** Cutting at the leftmost occurrence and splitting what follows gives a
      leftmost split of the whole. */
  lemma SplitCons(s: string, sep: string, i: nat, rest: seq<string>)
    requires sep != "" && IndexOf(s, sep) == Some(i)
    requires IsLeftmostSplit(rest, s[i + |sep|..], sep)
    requires forall k :: 0 <= k < |rest| ==> !Contains(rest[k], sep)
    ensures IsLeftmostSplit([s[..i]] + rest, s, sep)
    ensures forall k :: 0 <= k < |[s[..i]] + rest| ==> !Contains(([s[..i]] + rest)[k], sep)
  {
    var r := [s[..i]] + rest;
    JoinCons(s[..i], rest, sep);
    CutAround(s, sep, i);
    NoOccurrenceBefore(s, sep, i);
    assert s[..i] + sep[..|sep| - 1] == s[..i + |sep| - 1];
    ConsPieces(s[..i], rest, sep);
  }

  /** Putting a piece in front keeps every piece free of the separator, and
      keeps every piece that a separator follows free of a cut occurrence. */
  lemma ConsPieces(head: string, rest: seq<string>, sep: string)
    requires sep != "" && |rest| >= 1
    requires !Contains(head, sep) && !Contains(head + sep[..|sep| - 1], sep)
    requires forall k :: 0 <= k < |rest| - 1 ==> !Contains(rest[k] + sep[..|sep| - 1], sep)
    requires forall k :: 0 <= k < |rest| ==> !Contains(rest[k], sep)
    ensures forall k :: 0 <= k < |[head] + rest| - 1 ==> !Contains(([head] + rest)[k] + sep[..|sep| - 1], sep)
    ensures forall k :: 0 <= k < |[head] + rest| ==> !Contains(([head] + rest)[k], sep)
    ensures ([head] + rest)[|[head] + rest| - 1] == rest[|rest| - 1]
  {
    var r := [head] + rest;
    assert forall k :: 1 <= k < |r| ==> r[k] == rest[k - 1];
  }

  /** `Join` of a non-empty tail puts one separator after the head. */
  lemma JoinCons(head: string, rest: seq<string>, sep: string)
    requires |rest| >= 1
    ensures Join([head] + rest, sep) == head + sep + Join(rest, sep)
  {
    assert ([head] + rest)[1..] == rest;
  }

  /** Cutting an occurrence out and gluing the parts around it back
      restores the string. */
  lemma CutAround(s: string, sub: string, i: int)
    requires OccursAt(s, sub, i)
    ensures s[..i] + sub + s[i + |sub|..] == s
  {
    assert s == s[..i] + s[i..i + |sub|] + s[i + |sub|..];
  }

  /** In a leftmost split of two or more pieces, the first separator sits
      right after the first piece. */
  lemma LeftmostSplitFirstCut(pieces: seq<string>, s: string, sep: string)
    requires sep != "" && IsLeftmostSplit(pieces, s, sep) && |pieces| >= 2
    ensures IndexOf(s, sep) == Some(|pieces[0]|)
    ensures s == pieces[0] + sep + Join(pieces[1..], sep)
  {
    var p := pieces[0];
    assert s == p + sep + Join(pieces[1..], sep);
    assert s[|p|..|p| + |sep|] == sep;
    assert OccursAt(s, sep, |p|);
    assert s[..|p| + |sep| - 1] == p + sep[..|sep| - 1];
    forall j | 0 <= j < |p|
      ensures !OccursAt(s, sep, j)
    {
      OccursInPrefix(s, |p| + |sep| - 1, sep, j);
    }
  }

  /** Dropping the first piece of a leftmost split leaves a leftmost split
      of the rest. */
  lemma LeftmostSplitTail(pieces: seq<string>, s: string, sep: string)
    requires sep != "" && IsLeftmostSplit(pieces, s, sep) && |pieces| >= 2
    ensures IsLeftmostSplit(pieces[1..], Join(pieces[1..], sep), sep)
  {
    assert forall k :: 0 <= k < |pieces| - 1 ==> pieces[1..][k] == pieces[k + 1];
  }

  /** `Split` cuts at the first occurrence and splits the remainder. */
  lemma SplitAtFirst(s: string, sep: string, i: nat)
    requires sep != "" && IndexOf(s, sep) == Some(i)
    ensures i + |sep| <= |s|
    ensures Split(s, sep) == [s[..i]] + Split(s[i + |sep|..], sep)
  {
  }

  /** The leftmost-split property determines the pieces: `Split` is the only
      function meeting its contract. */
  lemma {:induction false} SplitUnique(pieces: seq<string>, s: string, sep: string)
    requires sep != "" && IsLeftmostSplit(pieces, s, sep)
    ensures pieces == Split(s, sep)
    decreases |pieces|
  {
    if |pieces| == 1 {
      assert s == pieces[0];
    } else {
      var p, rest := pieces[0], pieces[1..];
      var t := Join(rest, sep);
      LeftmostSplitFirstCut(pieces, s, sep);
      LeftmostSplitTail(pieces, s, sep);
      SplitUnique(rest, t, sep);
      CutParts(p, sep, t);
      SplitAtFirst(s, sep, |p|);
      assert pieces == [p] + rest;
    }
  }

  /** The parts around a separator are recovered by slicing. */
  lemma CutParts(p: string, sep: string, t: string)
    ensures (p + sep + t)[..|p|] == p
    ensures (p + sep + t)[|p| + |sep|..] == t
  {
  }

  /** Every piece `Join` glues together is a substring of the result. */
  lemma {:induction false} JoinContainsPieces(pieces: seq<string>, sep: string, k: nat)
    requires k < |pieces|
    ensures Contains(Join(pieces, sep), pieces[k])
    decreases |pieces|
  {
    var j := Join(pieces, sep);
    if k == 0 {
      assert j[0..|pieces[0]|] == pieces[0];
      assert OccursAt(j, pieces[0], 0);
    } else {
      JoinContainsPieces(pieces[1..], sep, k - 1);
      var off := |pieces[0]| + |sep|;
      assert j[off..|j|] == Join(pieces[1..], sep);
      var i :| 0 <= i <= |j[off..|j|]| - |pieces[k]| && OccursAt(j[off..|j|], pieces[k], i);
      OccursInSlice(j, off, |j|, pieces[k], i);
      assert OccursAt(j, pieces[k], off + i);
    }
  }

  /** Every piece of a split is a substring of the string split. */
  lemma SplitPiecesOccur(s: string, sep: string)
    requires sep != ""
    ensures forall k :: 0 <= k < |Split(s, sep)| ==> Contains(s, Split(s, sep)[k])
  {
    forall k | 0 <= k < |Split(s, sep)| {
      JoinContainsPieces(Split(s, sep), sep, k);
    }
  }

  // ---------------------------------------------------------------------
  // str.strip()
  // ---------------------------------------------------------------------

  /** The characters Python's `str.isspace` accepts: the ASCII controls TAB
      to CR and FS to US, SPACE, NEL, NO-BREAK SPACE, OGHAM SPACE MARK, the
      Unicode spaces U+2000 to U+200A, LINE and PARAGRAPH SEPARATOR, NARROW
      NO-BREAK SPACE, MEDIUM MATHEMATICAL SPACE and IDEOGRAPHIC SPACE. */
  const Whitespace: set<char> := {
    '\t', '\n', '\U{0B}', '\U{0C}', '\r', '\U{1C}', '\U{1D}', '\U{1E}', '\U{1F}', ' ',
    '\U{85}', '\U{A0}', '\U{1680}',
    '\U{2000}', '\U{2001}', '\U{2002}', '\U{2003}', '\U{2004}', '\U{2005}',
    '\U{2006}', '\U{2007}', '\U{2008}', '\U{2009}', '\U{200A}',
    '\U{2028}', '\U{2029}', '\U{202F}', '\U{205F}', '\U{3000}'
  }

  /** The whitespace test `str.strip()` uses. */
  predicate IsSpace(c: char) {
    c in Whitespace
  }

  predicate AllSpace(s: string) {
    forall k :: 0 <= k < |s| ==> IsSpace(s[k])
  }

  /** Neither end of `s` is whitespace. */
  predicate IsStripped(s: string) {
    s == [] || (!IsSpace(s[0]) && !IsSpace(s[|s| - 1]))
  }

  /** `s` is `t` at offset `a`, padded on both sides with whitespace only. */
  predicate PaddedAt(s: string, t: string, a: int) {
    0 <= a && a + |t| <= |s| && s[a..a + |t|] == t &&
    (forall k :: 0 <= k < a ==> IsSpace(s[k])) &&
    (forall k :: a + |t| <= k < |s| ==> IsSpace(s[k]))
  }

  /** The number of whitespace characters `s.lstrip()` removes. */
  function LeadingSpaces(s: string): (n: nat)
    ensures n <= |s|
    ensures forall k :: 0 <= k < n ==> IsSpace(s[k])
    ensures n == |s| || !IsSpace(s[n])
  {
    if s != [] && IsSpace(s[0]) then 1 + LeadingSpaces(s[1..]) else 0
  }

  /** The number of whitespace characters `s.rstrip()` removes. */
  function TrailingSpaces(s: string): (n: nat)
    ensures n <= |s|
    ensures forall k :: |s| - n <= k < |s| ==> IsSpace(s[k])
    ensures n == |s| || !IsSpace(s[|s| - 1 - n])
  {
    if s != [] && IsSpace(s[|s| - 1]) then 1 + TrailingSpaces(s[..|s| - 1]) else 0
  }

  /** Python's `s.strip()`, that is `s.lstrip().rstrip()`: the result is no
      longer than `s` and has no whitespace at either end. */
  function Strip(s: string): (r: string)
    ensures |r| <= |s|
    ensures IsStripped(r)
  {
    var t := s[LeadingSpaces(s)..];
    var m := TrailingSpaces(t);
    assert t[..|t| - m] != [] ==> t[..|t| - m][|t| - m - 1] == t[|t| - 1 - m];
    t[..|t| - m]
  }

  /** `Strip(s)` sits in `s` after the leading whitespace, padded by
      whitespace on both sides. */
  lemma StripPadded(s: string)
    ensures PaddedAt(s, Strip(s), LeadingSpaces(s))
  {
    var lo := LeadingSpaces(s);
    var t := s[lo..];
    var m := TrailingSpaces(t);
    var r := Strip(s);
    assert r == s[lo..|s| - m];
    assert s[lo..lo + |r|] == r;
    forall k | lo + |r| <= k < |s| ensures IsSpace(s[k]) {
      assert s[k] == t[k - lo];
    }
  }

  /** `Strip(s)` is `s` without its leading and trailing whitespace: a
      substring of `s` with neither end blank, empty exactly when `s` is all
      whitespace. */
  lemma StripSpec(s: string)
    ensures IsStripped(Strip(s))
    ensures Contains(s, Strip(s))
    ensures Strip(s) == "" <==> AllSpace(s)
  {
    StripPadded(s);
    var r := Strip(s);
    assert OccursAt(s, r, LeadingSpaces(s));
    if r != "" {
      assert r[0] == s[LeadingSpaces(s)];
    }
  }

  /** The padding property determines the stripped string: `Strip` is the
      only function meeting its contract. */
  lemma StripUnique(s: string, t: string, a: int)
    requires PaddedAt(s, t, a) && IsStripped(t)
    ensures Strip(s) == t
  {
    var r := Strip(s);
    var b := LeadingSpaces(s);
    StripPadded(s);
    StripSpec(s);
    if t == "" {
      assert AllSpace(s);
    } else {
      assert s[a] == t[0] && s[a + |t| - 1] == t[|t| - 1];
      assert !AllSpace(s);
      assert s[b] == r[0] && s[b + |r| - 1] == r[|r| - 1];
      assert a == b;
      assert |r| == |t|;
    }
  }

  /** Stripping is idempotent. */
  lemma StripIdempotent(s: string)
    ensures Strip(Strip(s)) == Strip(s)
  {
    var t := Strip(s);
    StripSpec(s);
    assert t[0..|t|] == t;
    StripUnique(t, t, 0);
  }

  /** A substring of a whitespace-only string is whitespace-only. */
  lemma AllSpaceSubstring(s: string, t: string)
    requires AllSpace(s) && Contains(s, t)
    ensures AllSpace(t)
  {
    var j :| 0 <= j <= |s| - |t| && OccursAt(s, t, j);
    forall k | 0 <= k < |t| ensures IsSpace(t[k]) {
      assert t[k] == s[j + k];
    }
  }

  // ---------------------------------------------------------------------
  // str.lower(), str.startswith, str.endswith
  // ---------------------------------------------------------------------

  function LowerChar(c: char): char {
    if 'A' <= c <= 'Z' then (c as int + 32) as char else c
  }

  /** `s.lower()`, folding the ASCII letters only. */
  function Lower(s: string): (r: string)
    ensures |r| == |s|
    ensures forall k :: 0 <= k < |r| ==> !('A' <= r[k] <= 'Z')
    ensures forall k :: 0 <= k < |s| && !('A' <= s[k] <= 'Z') ==> r[k] == s[k]
    ensures forall k :: 0 <= k < |s| && 'A' <= s[k] <= 'Z' ==> r[k] as int == s[k] as int + 32
  {
    seq(|s|, i requires 0 <= i < |s| => LowerChar(s[i]))
  }

  predicate StartsWith(s: string, prefix: string) {
    |prefix| <= |s| && s[..|prefix|] == prefix
  }

  predicate EndsWith(s: string, suffix: string) {
    |suffix| <= |s| && s[|s| - |suffix|..] == suffix
  }

  // ---------------------------------------------------------------------
  // os.path.splitext
  // ---------------------------------------------------------------------

  /** The index of the last `c` in `s`, or `None` when there is none. */
  function LastIndexOf(s: string, c: char): (r: Option<nat>)
    ensures r.None? <==> c !in s
    ensures r.Some? ==> r.value < |s| && s[r.value] == c
    ensures r.Some? ==> forall k :: r.value < k < |s| ==> s[k] != c
  {
    if s == [] then None
    else if s[|s| - 1] == c then Some(|s| - 1)
    else
      assert s == s[..|s| - 1] + [s[|s| - 1]];
      LastIndexOf(s[..|s| - 1], c)
  }

  /** The dot at `j` starts the extension of path `p`: it is the last dot,
      no `/` follows it, and some character of the last path component
      before it is not a dot (so leading dots, as in `.bashrc`, do not
      start an extension). */
  predicate ExtensionDot(p: string, j: int) {
    0 <= j < |p| && p[j] == '.' &&
    (forall k :: j < k < |p| ==> p[k] != '.' && p[k] != '/') &&
    exists i :: 0 <= i < j && p[i] != '.' && p[i] != '/' &&
      forall m :: i < m < j ==> p[m] != '/'
  }

  /** Python's `s.rfind(c)` for one character: `LastIndexOf` with -1 for
      "not found". */
  function RFind(s: string, c: char): int {
    match LastIndexOf(s, c)
    case None => -1
    case Some(i) => i
  }

  /** The test `os.path.splitext` makes before cutting at the last dot: the
      last dot follows the last `/`, and some character between them is not
      a dot. */
  predicate HasExtension(p: string) {
    var sepIndex := RFind(p, '/');
    var dotIndex := RFind(p, '.');
    sepIndex < dotIndex && exists k :: sepIndex < k < dotIndex && p[k] != '.'
  }

  lemma HasExtensionIff(p: string)
    ensures HasExtension(p) <==> exists j :: ExtensionDot(p, j)
  {
    if HasExtension(p) {
      assert ExtensionDot(p, RFind(p, '.'));
    }
    forall j | ExtensionDot(p, j)
      ensures HasExtension(p)
    {
      var i :| 0 <= i < j && p[i] != '.' && p[i] != '/' &&
        forall m :: i < m < j ==> p[m] != '/';
      assert RFind(p, '.') == j;
      assert RFind(p, '/') < i;
    }
  }

  /** `os.path.splitext(p)` on POSIX: `(root, ext)` with `root + ext == p`,
      where `ext` is empty or the last extension, dot included. */
  function SplitExt(p: string): (r: (string, string))
    ensures r.0 + r.1 == p
    ensures r.1 != "" ==> r.1[0] == '.'
    ensures forall k :: 1 <= k < |r.1| ==> r.1[k] != '.' && r.1[k] != '/'
    ensures r.1 != "" <==> exists j :: ExtensionDot(p, j)
  {
    HasExtensionIff(p);
    if HasExtension(p) then
      var dotIndex := RFind(p, '.');
      (p[..dotIndex], p[dotIndex..])
    else
      (p, "")
  }

  /** The last occurrence of `c` is the occurrence no later one follows. */
  lemma LastIndexOfUnique(s: string, c: char, j: nat)
    requires j < |s| && s[j] == c
    requires forall k :: j < k < |s| ==> s[k] != c
    ensures LastIndexOf(s, c) == Some(j)
  {
  }

  /** A name `base.ext`, whose `base` ends in neither `.` nor `/` and whose
      `ext` holds neither, splits into `base` and `.ext`. */
  lemma SplitExtOfSimpleName(base: string, ext: string)
    requires base != "" && base[|base| - 1] != '.' && base[|base| - 1] != '/'
    requires forall k :: 0 <= k < |ext| ==> ext[k] != '.' && ext[k] != '/'
    ensures SplitExt(base + "." + ext) == (base, "." + ext)
  {
    var p := base + "." + ext;
    var n := |base|;
    assert p[n] == '.' && p[n - 1] == base[n - 1];
    forall k | n < k < |p| ensures p[k] != '.' && p[k] != '/' {
      assert p[k] == ext[k - n - 1];
    }
    LastIndexOfUnique(p, '.', n);
    assert ExtensionDot(p, n);
    HasExtensionIff(p);
    assert p[..n] == base;
    assert p[n..] == "." + ext;
  }

  /** A name without a dot has no extension. */
  lemma SplitExtOfDotless(name: string)
    requires '.' !in name
    ensures SplitExt(name) == (name, "")
  {
    assert forall j :: 0 <= j < |name| ==> name[j] != '.';
    assert forall j :: !ExtensionDot(name, j);
  }
}
