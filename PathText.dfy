/** The string side of POSIX paths as the core uses them: `str.rfind`,
    ASCII lower-casing, `os.path.splitext`, pathlib's `name`/`stem`/`suffix`/`parent`,
    `os.path.join` and `str(n)` for a counter. Paths are plain strings with '/'
    as the only separator. */
module PathText {

  /** `s.rfind(c)`: the index of the last `c` in `s`, or -1 when there is none. */
  function LastIndex(s: string, c: char): (r: int)
    ensures -1 <= r < |s|
    ensures r >= 0 ==> s[r] == c
    ensures forall j :: r < j < |s| ==> s[j] != c
  {
    if |s| == 0 then -1
    else if s[|s| - 1] == c then |s| - 1
    else LastIndex(s[..|s| - 1], c)
  }

  /** The last occurrence is unique: any index holding `c` with no `c` after it is the one. */
  lemma LastIndexIs(s: string, c: char, r: int)
    requires -1 <= r < |s|
    requires r >= 0 ==> s[r] == c
    requires forall j :: r < j < |s| ==> s[j] != c
    ensures LastIndex(s, c) == r
  {
  }

  /** Appending text without `c` does not move the last `c`. */
  lemma LastIndexAppend(a: string, b: string, c: char)
    requires forall j :: 0 <= j < |b| ==> b[j] != c
    ensures LastIndex(a + b, c) == LastIndex(a, c)
  {
    var r := LastIndex(a, c);
    forall j | r < j < |a + b| ensures (a + b)[j] != c {
      if j < |a| { assert (a + b)[j] == a[j]; } else { assert (a + b)[j] == b[j - |a|]; }
    }
    LastIndexIs(a + b, c, r);
  }

  function LowerChar(c: char): char {
    if 'A' <= c <= 'Z' then (c as int + 32) as char else c
  }

  /** `s.lower()` restricted to ASCII letters; every other character is kept. */
  function Lower(s: string): (r: string)
    ensures |r| == |s|
    ensures forall i :: 0 <= i < |s| ==> r[i] == LowerChar(s[i])
  {
    seq(|s|, i requires 0 <= i < |s| => LowerChar(s[i]))
  }

  predicate HasNonDot(s: string) {
    exists i :: 0 <= i < |s| && s[i] != '.'
  }

  /** `os.path.splitext` with '/' as separator: the extension starts at the last
      dot, provided that dot lies in the last path component and that component
      has a character other than '.' before it; otherwise the extension is empty. */
  function SplitExt(p: string): (r: (string, string))
    ensures r.0 + r.1 == p
  {
    var sep := LastIndex(p, '/');
    var dot := LastIndex(p, '.');
    if dot > sep && HasNonDot(p[sep + 1..dot]) then (p[..dot], p[dot..]) else (p, "")
  }

  /** An extension in the sense of `splitext`: a dot followed by neither dots nor separators. */
  ghost predicate IsExtension(e: string) {
    |e| >= 1 && e[0] == '.' && forall i :: 1 <= i < |e| ==> e[i] != '.' && e[i] != '/'
  }

  /** The last component of `root` has a character other than '.'. */
  ghost predicate HasStem(root: string) {
    HasNonDot(root[LastIndex(root, '/') + 1..])
  }

  /** What `splitext` returns is either no extension, or a proper extension after a root with a stem. */
  lemma SplitExtSound(p: string)
    ensures SplitExt(p).1 == "" || (IsExtension(SplitExt(p).1) && HasStem(SplitExt(p).0))
  {
    var sep := LastIndex(p, '/');
    var dot := LastIndex(p, '.');
    if dot > sep && HasNonDot(p[sep + 1..dot]) {
      var root, ext := p[..dot], p[dot..];
      forall i | 1 <= i < |ext| ensures ext[i] != '.' && ext[i] != '/' {
        assert ext[i] == p[dot + i];
      }
      LastIndexIs(root, '/', sep);
      assert root[sep + 1..] == p[sep + 1..dot];
    }
  }

  /** Conversely, a root with a stem followed by a proper extension splits exactly there. */
  lemma SplitExtOf(root: string, ext: string)
    requires IsExtension(ext) && HasStem(root)
    ensures SplitExt(root + ext) == (root, ext)
  {
    var p := root + ext;
    var sep := LastIndex(root, '/');
    LastIndexAppend(root, ext, '/');
    forall j | |root| < j < |p| ensures p[j] != '.' {
      assert p[j] == ext[j - |root|];
    }
    LastIndexIs(p, '.', |root|);
    assert p[sep + 1..|root|] == root[sep + 1..];
    assert p[..|root|] == root && p[|root|..] == ext;
  }

  /** The final path component: what follows the last '/'. */
  function Name(p: string): (n: string)
    ensures '/' !in n
    ensures |n| <= |p| && p[|p| - |n|..] == n
    ensures |n| == |p| || p[|p| - |n| - 1] == '/'
  {
    p[LastIndex(p, '/') + 1..]
  }

  /** pathlib's `suffix`: from the last dot of the name, unless that dot is
      the name's first or last character. */
  function Suffix(p: string): string {
    var name := Name(p);
    var i := LastIndex(name, '.');
    if 0 < i < |name| - 1 then name[i..] else ""
  }

  /** pathlib's `stem`: the name without its suffix. */
  function Stem(p: string): string {
    var name := Name(p);
    var i := LastIndex(name, '.');
    if 0 < i < |name| - 1 then name[..i] else name
  }

  /** Stem and suffix split the name, and a suffix is a dot followed by
      at least one character and no further dot. */
  lemma StemSuffixSplitName(p: string)
    ensures Stem(p) + Suffix(p) == Name(p)
    ensures Suffix(p) == "" || (|Suffix(p)| >= 2 && IsExtension(Suffix(p)) && Stem(p) != "")
    ensures (0 < LastIndex(Name(p), '.') < |Name(p)| - 1) <==> Suffix(p) != ""
  {
    var name := Name(p);
    var i := LastIndex(name, '.');
    if 0 < i < |name| - 1 {
      SplitAt(name, i);
      SuffixShape(name, i);
    }
    SuffixPresence(p);
  }

  lemma SplitAt(s: string, i: int)
    requires 0 <= i <= |s|
    ensures s[..i] + s[i..] == s
  {
  }

  /** The part of a name from its last dot on, when that dot is neither first
      nor last, is a proper extension. */
  lemma SuffixShape(name: string, i: int)
    requires '/' !in name && i == LastIndex(name, '.') && 0 < i < |name| - 1
    ensures |name[i..]| >= 2 && IsExtension(name[i..])
  {
    forall k | 1 <= k < |name[i..]| ensures name[i..][k] != '.' && name[i..][k] != '/' {
      assert name[i..][k] == name[i + k];
    }
  }

  /** The suffix is present exactly when the name's last dot is neither its
      first nor its last character. */
  lemma SuffixPresence(p: string)
    ensures (0 < LastIndex(Name(p), '.') < |Name(p)| - 1) <==> Suffix(p) != ""
  {
    var name := Name(p);
    var i := LastIndex(name, '.');
    if 0 < i < |name| - 1 {
      assert |name[i..]| >= 2;
    }
  }

  /** `str(Path(p).parent)`: the text before the last '/', "/" for a file in
      the root and "." for a bare name. */
  function Parent(p: string): (d: string)
    ensures LastIndex(p, '/') == -1 ==> d == "."
    ensures LastIndex(p, '/') == 0 ==> d == "/"
    ensures LastIndex(p, '/') > 0 ==> d == p[..LastIndex(p, '/')] && p == d + "/" + Name(p)
    ensures |d| <= |p| || d == "."
  {
    var i := LastIndex(p, '/');
    if i == -1 then "." else if i == 0 then "/" else p[..i]
  }

  /** `os.path.join(a, b)` (and pathlib's `/`): an absolute `b` replaces `a`;
      otherwise a '/' is inserted unless `a` is empty or already ends in one. */
  function Join(a: string, b: string): string {
    if |b| > 0 && b[0] == '/' then b
    else if a == [] || a[|a| - 1] == '/' then a + b
    else a + "/" + b
  }

  /** A joined path ends with the joined name. */
  lemma JoinEndsWith(a: string, b: string)
    ensures |Join(a, b)| >= |b| && Join(a, b)[|Join(a, b)| - |b|..] == b
  {
  }

  /** Joining under the same directory is injective on names that agree on
      whether they are absolute. */
  lemma JoinInjective(a: string, b1: string, b2: string)
    requires (|b1| > 0 && b1[0] == '/') == (|b2| > 0 && b2[0] == '/')
    requires Join(a, b1) == Join(a, b2)
    ensures b1 == b2
  {
    var j := Join(a, b1);
    if !(|b1| > 0 && b1[0] == '/') {
      var n := if a == [] || a[|a| - 1] == '/' then |a| else |a| + 1;
      assert j[n..] == b1;
      assert j[n..] == b2;
    }
  }

  function DigitChar(d: int): char
    requires 0 <= d < 10
  {
    "0123456789"[d]
  }

  /** `str(n)` for a natural number: its decimal digits, most significant first. */
  function DecimalString(n: nat): (s: string)
    ensures 1 <= |s|
    ensures n < 10 <==> |s| == 1
    decreases n
  {
    if n < 10 then [DigitChar(n)] else DecimalString(n / 10) + [DigitChar(n % 10)]
  }

  /** Different numbers are written differently, so numbered names never collide. */
  lemma {:induction false} DecimalStringInjective(m: nat, n: nat)
    requires DecimalString(m) == DecimalString(n)
    ensures m == n
    decreases m
  {
    if m >= 10 && n >= 10 {
      var sm, sn := DecimalString(m), DecimalString(n);
      assert sm[..|sm| - 1] == DecimalString(m / 10);
      assert sn[..|sn| - 1] == DecimalString(n / 10);
      DecimalStringInjective(m / 10, n / 10);
      assert DigitChar(m % 10) == sm[|sm| - 1] == sn[|sn| - 1] == DigitChar(n % 10);
    } else if m < 10 && n < 10 {
      assert DigitChar(m) == DigitChar(n);
    }
  }
}
