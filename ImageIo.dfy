/** The image-file filter of the import path: a path is an image when the
    lower-cased extension found by `os.path.splitext` is a supported one. */
module ImageIo {
  import opened PathText

  /** The extensions the application imports. */
  const SupportedExts: set<string> := {".jpg", ".jpeg", ".png", ".bmp", ".tif", ".tiff"}

  predicate IsImageFile(path: string) {
    SplitExt(Lower(path)).1 in SupportedExts
  }

  /** Every supported extension is a proper `splitext` extension. */
  lemma SupportedAreExtensions(e: string)
    requires e in SupportedExts
    ensures IsExtension(e) && Lower(e) == e
  {
  }

  /** An image file's lower-cased path is a root with a stem followed by a supported extension. */
  lemma ImageFileHasSupportedExtension(path: string)
    requires IsImageFile(path)
    ensures exists k :: 0 <= k <= |path| && Lower(path)[k..] in SupportedExts && HasStem(Lower(path)[..k])
  {
    var p := Lower(path);
    var r := SplitExt(p);
    SplitExtSound(p);
    assert r.1 != "";
    var k := |r.0|;
    assert p[k..] == r.1 && p[..k] == r.0;
    assert 0 <= k <= |path| && p[k..] in SupportedExts && HasStem(p[..k]);
  }

  /** Conversely, such a path is an image file. */
  lemma SupportedExtensionIsImageFile(path: string, k: int)
    requires 0 <= k <= |path| && Lower(path)[k..] in SupportedExts && HasStem(Lower(path)[..k])
    ensures IsImageFile(path)
  {
    var p := Lower(path);
    SupportedAreExtensions(p[k..]);
    assert p[..k] + p[k..] == p;
    SplitExtOf(p[..k], p[k..]);
  }

  /** Upper and lower case are the same to the filter. */
  lemma {:induction false} IsImageFileCaseInsensitive(path: string)
    ensures IsImageFile(path) <==> IsImageFile(Lower(path))
  {
    assert Lower(Lower(path)) == Lower(path);
  }

  /** Appending a supported extension (in any case) to a name that has a stem
      in its last component makes an image file, whatever that name already
      ends in: only the last extension counts. */
  lemma LastExtensionCounts(root: string, ext: string)
    requires HasStem(Lower(root))
    requires Lower(ext) in SupportedExts
    ensures IsImageFile(root + ext)
  {
    assert Lower(root + ext) == Lower(root) + Lower(ext);
    SplitExtOf(Lower(root), Lower(ext));
  }

  /** The last component of `path` has no dot that follows a non-dot character. */
  ghost predicate NoDotAfterStem(path: string) {
    var sep := LastIndex(path, '/');
    forall j :: sep < j < |path| && path[j] == '.' ==> !HasNonDot(path[sep + 1..j])
  }

  /** A path whose last component has no dot after a non-dot character is
      never an image file: no dot at all, only leading dots such as ".png",
      or a dot only in a directory name such as "a.png/b". */
  lemma NoExtensionNoImage(path: string)
    requires NoDotAfterStem(path)
    ensures !IsImageFile(path)
  {
    LowerKeepsNoDotAfterStem(path);
    NoDotAfterStemNoExtension(Lower(path));
  }

  lemma NoDotAfterStemNoExtension(p: string)
    requires NoDotAfterStem(p)
    ensures SplitExt(p).1 == ""
  {
    var sep := LastIndex(p, '/');
    var dot := LastIndex(p, '.');
    if dot > sep {
      assert !HasNonDot(p[sep + 1..dot]);
    }
  }

  lemma LowerKeepsNoDotAfterStem(path: string)
    requires NoDotAfterStem(path)
    ensures NoDotAfterStem(Lower(path))
  {
    var p := Lower(path);
    var sep := LastIndex(path, '/');
    LowerKeepsLastSeparator(path);
    forall j | sep < j < |p| && p[j] == '.' ensures !HasNonDot(p[sep + 1..j]) {
      assert path[j] == '.';
      LowerKeepsNonDot(path, sep + 1, j);
    }
  }

  /** Lower-casing does not move the last separator. */
  lemma LowerKeepsLastSeparator(s: string)
    ensures LastIndex(Lower(s), '/') == LastIndex(s, '/')
  {
    LowerKeepsPunctuation(s);
    LastIndexIs(Lower(s), '/', LastIndex(s, '/'));
  }

  /** A slice has a non-dot character exactly when its lower-cased version has one. */
  lemma LowerKeepsNonDot(s: string, a: int, b: int)
    requires 0 <= a <= b <= |s|
    ensures HasNonDot(Lower(s)[a..b]) == HasNonDot(s[a..b])
  {
    LowerKeepsPunctuation(s);
    if HasNonDot(Lower(s)[a..b]) {
      var i :| 0 <= i < b - a && Lower(s)[a..b][i] != '.';
      assert s[a..b][i] != '.';
    }
    if HasNonDot(s[a..b]) {
      var i :| 0 <= i < b - a && s[a..b][i] != '.';
      assert Lower(s)[a..b][i] != '.';
    }
  }

  /** Lower-casing neither creates nor removes dots and separators. */
  lemma LowerKeepsPunctuation(s: string)
    ensures forall i :: 0 <= i < |s| ==> (Lower(s)[i] == '.' <==> s[i] == '.') && (Lower(s)[i] == '/' <==> s[i] == '/')
  {
  }

  /** "A.PNG" is accepted: case does not matter. */
  lemma UpperCaseAccepted()
    ensures IsImageFile("A.PNG")
  {
    var p := Lower("A.PNG");
    assert p == "a.png" by {
      forall i | 0 <= i < 5 ensures p[i] == "a.png"[i] {
      }
    }
    assert p[1..] == ".png" && p[..1] == "a";
    LastIndexIs("a", '/', -1);
    assert "a"[0] != '.';
    SupportedExtensionIsImageFile("A.PNG", 1);
  }

  /** "x.txt.png" is accepted: only the last extension counts. */
  lemma LastExtensionAccepted()
    ensures IsImageFile("x.txt.png")
  {
    var p := Lower("x.txt.png");
    assert p == "x.txt.png" by {
      forall i | 0 <= i < 9 ensures p[i] == "x.txt.png"[i] {
      }
    }
    assert p[5..] == ".png" && p[..5] == "x.txt";
    LastIndexIs("x.txt", '/', -1);
    assert "x.txt"[0] != '.';
    SupportedExtensionIsImageFile("x.txt.png", 5);
  }

  /** "x.png.txt" is rejected: an earlier image extension does not count. */
  lemma EarlierExtensionRejected()
    ensures !IsImageFile("x.png.txt")
  {
    EarlierExtensionSplit();
    AlreadyLowerCase();
    assert ".txt" !in SupportedExts;
  }

  lemma AlreadyLowerCase()
    ensures Lower("x.png.txt") == "x.png.txt"
  {
    LowerWithoutCapitals("x.png.txt");
  }

  lemma EarlierExtensionSplit()
    ensures SplitExt("x.png.txt") == ("x.png", ".txt")
  {
    LastIndexIs("x.png", '/', -1);
    assert "x.png"[0] != '.';
    assert "x.png" + ".txt" == "x.png.txt";
    assert IsExtension(".txt") by {
      forall i | 1 <= i < 4 ensures ".txt"[i] != '.' && ".txt"[i] != '/' {
      }
    }
    SplitExtOf("x.png", ".txt");
  }

  lemma LowerWithoutCapitals(s: string)
    requires forall i :: 0 <= i < |s| ==> !('A' <= s[i] <= 'Z')
    ensures Lower(s) == s
  {
  }

  /** ".png" is rejected: a leading dot does not start an extension. */
  lemma LeadingDotRejected()
    ensures !IsImageFile(".png")
  {
    LastIndexIs(".png", '/', -1);
    NoExtensionNoImage(".png");
  }

  /** "a.png/b" is rejected: a dot in a directory name does not count. */
  lemma DirectoryDotRejected()
    ensures !IsImageFile("a.png/b")
  {
    LastIndexIs("a.png/b", '/', 5);
    NoExtensionNoImage("a.png/b");
  }

  /** "photos/2023.jpg" is accepted: the filter looks at the name only, so it
      cannot tell a folder with that name from a picture. */
  lemma FolderNameAccepted()
    ensures IsImageFile("photos/2023.jpg")
  {
    var s := "photos/2023.jpg";
    LowerWithoutCapitals(s);
    assert s[11..] == ".jpg" && s[..11] == "photos/2023";
    LastIndexIs("photos/2023", '/', 6);
    assert "photos/2023"[7..] == "2023" && "2023"[0] != '.';
    SupportedExtensionIsImageFile(s, 11);
  }
}
