/** POSIX `os.path.splitext` and `os.path.join` on two components. */
module PosixPath {
  import opened Common

  /** Some character of `p[lo..hi]` is not a '.'. */
  predicate HasNonDot(p: string, lo: int, hi: int)
    requires 0 <= lo && hi <= |p|
  {
    exists i :: lo <= i < hi && p[i] != '.'
  }

  /** `os.path.splitext(p)`: split before the last '.' when it lies in the final path
      component and something other than a '.' precedes it there (leading dots of a
      component are not an extension); otherwise the extension is empty. */
  function SplitExt(p: string): (r: (string, string))
    ensures r.0 + r.1 == p
    ensures r.1 == [] || (r.1[0] == '.' && '.' !in r.1[1..] && '/' !in r.1)
    ensures r.1 != [] <==>
      RFind(p, '.') > RFind(p, '/') && HasNonDot(p, RFind(p, '/') + 1, RFind(p, '.'))
    ensures r.1 != [] ==> r.0 == p[..RFind(p, '.')]
  {
    var sep, dot := RFind(p, '/'), RFind(p, '.');
    if dot > sep && HasNonDot(p, sep + 1, dot) then
      assert p[..dot] + p[dot..] == p;
      (p[..dot], p[dot..])
    else (p, [])
  }

  /** `os.path.join(a, b)`: an absolute `b` replaces `a`; otherwise a '/' is put
      between them unless `a` is empty or already ends with one. */
  function Join(a: string, b: string): (r: string)
    ensures |b| > 0 && b[0] == '/' ==> r == b
    ensures !(|b| > 0 && b[0] == '/') ==> |r| >= |b| && r[|r| - |b|..] == b
    ensures !(|b| > 0 && b[0] == '/') && (a == [] || a[|a| - 1] == '/') ==> r == a + b
    ensures !(|b| > 0 && b[0] == '/') && a != [] && a[|a| - 1] != '/' ==> r == a + "/" + b
  {
    if |b| > 0 && b[0] == '/' then b
    else if a == [] || a[|a| - 1] == '/' then a + b
    else a + "/" + b
  }

  /** Appending text that holds no `ch` leaves the last `ch` where it was. */
  lemma RFindAppendFree(a: string, t: string, ch: char)
    requires ch !in t
    ensures RFind(a + t, ch) == RFind(a, ch)
  {
    var s := a + t;
    var r := RFind(a, ch);
    if r >= 0 {
      assert s[r] == ch;
      forall j | r < j < |s| ensures s[j] != ch {
        if j >= |a| { assert s[j] == t[j - |a|]; }
        else { assert s[j] == a[j]; }
      }
    } else {
      assert ch !in s by {
        forall j | 0 <= j < |s| ensures s[j] != ch {
          if j >= |a| { assert s[j] == t[j - |a|]; }
          else { assert s[j] == a[j]; }
        }
      }
    }
  }

  /** Inserting `mid`, free of '.' and '/', just before the extension moves the split
      point past `mid` and keeps the extension. */
  lemma SplitExtInsert(p: string, mid: string)
    requires '.' !in mid && '/' !in mid && |mid| > 0 && mid[0] != '.'
    ensures var (base, ext) := SplitExt(p);
      SplitExt(base + mid + ext) == (base + mid, ext)
  {
    if SplitExt(p).1 == [] {
      SplitExtAppend(p, mid);
    } else {
      SplitExtInsertBeforeExt(p, mid);
    }
  }

  /** Without an extension, appending `mid` leaves none: it moves neither the last '/'
      nor the last '.', and the characters before them are unchanged. */
  lemma SplitExtAppend(p: string, mid: string)
    requires '.' !in mid && '/' !in mid && SplitExt(p).1 == []
    ensures SplitExt(p + mid) == (p + mid, [])
  {
    var q := p + mid;
    RFindAppendFree(p, mid, '/');
    RFindAppendFree(p, mid, '.');
    var sep, dot := RFind(p, '/'), RFind(p, '.');
    if dot > sep {
      HasNonDotPrefix(p, mid, sep + 1, dot);
    }
  }

  /** Characters of a prefix are those of the whole. */
  lemma HasNonDotPrefix(p: string, t: string, lo: int, hi: int)
    requires 0 <= lo && hi <= |p|
    ensures HasNonDot(p + t, lo, hi) == HasNonDot(p, lo, hi)
  {
    assert forall i :: 0 <= i < |p| ==> (p + t)[i] == p[i];
  }

  /** With an extension, `mid` goes between the stem and the extension. */
  lemma SplitExtInsertBeforeExt(p: string, mid: string)
    requires '.' !in mid && '/' !in mid && |mid| > 0 && mid[0] != '.'
    requires SplitExt(p).1 != []
    ensures var (base, ext) := SplitExt(p);
      SplitExt(base + mid + ext) == (base + mid, ext)
  {
    var (base, ext) := SplitExt(p);
    var sep, dot := RFind(p, '/'), RFind(p, '.');
    var q := base + mid + ext;
    assert base == p[..dot] && ext == p[dot..];
    var tail := mid + ext;
    assert q == base + tail;
    RFindSlashes(p, base, ext, sep);
    RFindAppendFree(base, tail, '/') by {
      forall j | 0 <= j < |tail| ensures tail[j] != '/' {
        if j >= |mid| { assert tail[j] == ext[j - |mid|]; }
      }
    }
    var d := |base| + |mid|;
    assert q[d] == '.';
    forall j | d < j < |q| ensures q[j] != '.' {
      assert q[j] == ext[j - d];
      assert ext[j - d] == ext[1..][j - d - 1];
    }
    assert RFind(q, '.') == d;
    assert q[|base|] == mid[0] != '.';
    assert HasNonDot(q, sep + 1, d);
    assert q[..d] == base + mid && q[d..] == ext;
  }

  /** The last '/' of `p == base + ext` lies in `base` when `ext` holds none. */
  lemma RFindSlashes(p: string, base: string, ext: string, sep: int)
    requires p == base + ext && '/' !in ext && sep == RFind(p, '/')
    ensures RFind(base, '/') == sep
  {
    RFindAppendFree(base, ext, '/');
  }

  /** Leading dots of the final component are not an extension, only the last '.'
      splits, and a '.' before the last '/' does not. */
  lemma SplitExtExamples()
    ensures SplitExt(".bashrc") == (".bashrc", "")
    ensures SplitExt("a/.b.c") == ("a/.b", ".c")
    ensures SplitExt("x.tar.gz") == ("x.tar", ".gz")
    ensures SplitExt("a.b/c") == ("a.b/c", "")
  {
    assert RFind(".bashrc", '/') == -1 && RFind(".bashrc", '.') == 0;
    assert RFind("a/.b.c", '/') == 1 && RFind("a/.b.c", '.') == 4;
    assert "a/.b.c"[3] != '.';
    assert "a/.b.c"[..4] == "a/.b" && "a/.b.c"[4..] == ".c";
    assert "x.tar.gz"[..5] == "x.tar" && "x.tar.gz"[5..] == ".gz";
    assert RFind("x.tar.gz", '/') == -1 && RFind("x.tar.gz", '.') == 5;
    assert "x.tar.gz"[0] != '.';
    assert RFind("a.b/c", '/') == 3 && RFind("a.b/c", '.') == 1;
  }

  /** The upload route's path: the folder, a '/', and the file name. */
  lemma JoinExamples()
    ensures Join("static/uploads", "x.png") == "static/uploads/x.png"
    ensures Join("static/uploads/", "x.png") == "static/uploads/x.png"
    ensures Join("static/uploads", "/tmp/x.png") == "/tmp/x.png"
  {
  }
}
