/**
 * The upload filter of the web front end: a file name is accepted when it
 * has a dot and the text after its last dot, lower-cased, is one of the
 * image extensions the service reads.
 */
module Upload {

  /** The accepted extensions, written in lower case without the dot. */
  const ALLOWED_EXTENSIONS: set<string> := {"png", "jpg", "jpeg"}

  /** `str.lower()` on one character, for the ASCII letters. */
  function LowerChar(c: char): (r: char)
    ensures 'A' <= c <= 'Z' ==> 'a' <= r <= 'z' && r as int - c as int == 32
    ensures !('A' <= c <= 'Z') ==> r == c
  {
    if 'A' <= c <= 'Z' then (c as int + 32) as char else c
  }

  /** `str.lower()`: every character lower-cased, length preserved. */
  function Lower(s: string): (r: string)
    ensures |r| == |s|
    ensures forall k :: 0 <= k < |s| ==> r[k] == LowerChar(s[k])
  {
    seq(|s|, k requires 0 <= k < |s| => LowerChar(s[k]))
  }

  /** The position `rsplit('.', 1)` cuts at: the last dot of `s`. */
  function LastDot(s: string): (i: nat)
    requires '.' in s
    ensures i < |s| && s[i] == '.'
    ensures forall j :: i < j < |s| ==> s[j] != '.'
    decreases |s|
  {
    if s[|s| - 1] == '.' then |s| - 1
    else
      assert '.' in s[..|s| - 1] by {
        var k :| 0 <= k < |s| && s[k] == '.';
        assert s[..|s| - 1][k] == '.';
      }
      LastDot(s[..|s| - 1])
  }

  /** `filename.rsplit('.', 1)[1]`: the text after the last dot. */
  function Extension(s: string): (r: string)
    requires '.' in s
    ensures '.' !in r
    ensures |r| < |s| && s == s[..|s| - |r| - 1] + "." + r
  {
    var i := LastDot(s);
    assert s == s[..i] + "." + s[i + 1..];
    s[i + 1..]
  }

  /** No dot follows position `i` of `s`. */
  predicate NoDotAfter(s: string, i: nat)
  {
    forall j :: i < j < |s| ==> s[j] != '.'
  }

  /** A dot with no dot after it is the last dot. */
  lemma DotIsLast(s: string, i: nat)
    requires i < |s| && s[i] == '.' && NoDotAfter(s, i)
    ensures '.' in s && LastDot(s) == i
  {
  }

  /** `allowed_file(filename)`: a dot, and an allowed extension after the last one. */
  function AllowedFile(filename: string): (ok: bool)
    ensures ok ==> '.' in filename && |filename| >= 4
  {
    '.' in filename && Lower(Extension(filename)) in ALLOWED_EXTENSIONS
  }

  /**
   * Accepted exactly when some dot of the name has no dot after it and the
   * text after that dot, lower-cased, is an allowed extension.
   */
  lemma AllowedFileIff(filename: string)
    ensures AllowedFile(filename) <==>
      exists i: nat :: i < |filename| && filename[i] == '.' && NoDotAfter(filename, i)
                    && Lower(filename[i + 1..]) in ALLOWED_EXTENSIONS
  {
    if AllowedFile(filename) {
      var i := LastDot(filename);
      assert filename[i] == '.' && NoDotAfter(filename, i);
    }
    if exists i: nat :: i < |filename| && filename[i] == '.' && NoDotAfter(filename, i)
                    && Lower(filename[i + 1..]) in ALLOWED_EXTENSIONS {
      var i: nat :| i < |filename| && filename[i] == '.' && NoDotAfter(filename, i)
                    && Lower(filename[i + 1..]) in ALLOWED_EXTENSIONS;
      DotIsLast(filename, i);
    }
  }

  /** A name without a dot is always refused. */
  lemma NoDotRejected(filename: string)
    requires '.' !in filename
    ensures !AllowedFile(filename)
  {
  }

  /** Only the part after the last dot decides; the head may hold anything, dots included. */
  lemma AllowedFileSplit(head: string, ext: string)
    requires '.' !in ext
    ensures AllowedFile(head + "." + ext) <==> Lower(ext) in ALLOWED_EXTENSIONS
  {
    var s := head + "." + ext;
    assert s[|head|] == '.' && s[|head| + 1..] == ext;
    assert NoDotAfter(s, |head|) by {
      forall j | |head| < j < |s| ensures s[j] != '.' {
        assert s[j] == ext[j - |head| - 1];
      }
    }
    DotIsLast(s, |head|);
  }

  lemma LowerAppend(a: string, b: string)
    ensures Lower(a + b) == Lower(a) + Lower(b)
  {
  }

  /** Lower-casing keeps dots where they are and creates none. */
  lemma LowerKeepsDots(s: string)
    ensures '.' in Lower(s) <==> '.' in s
  {
    if '.' in Lower(s) {
      var k :| 0 <= k < |s| && Lower(s)[k] == '.';
      assert s[k] == '.';
    }
    if '.' in s {
      var k :| 0 <= k < |s| && s[k] == '.';
      assert Lower(s)[k] == '.';
    }
  }

  /** `str.lower()` is idempotent. */
  lemma LowerIdempotent(s: string)
    ensures Lower(Lower(s)) == Lower(s)
  {
  }

  /** The verdict does not depend on the case of the name. */
  lemma AllowedFileCaseInsensitive(filename: string)
    ensures AllowedFile(Lower(filename)) == AllowedFile(filename)
  {
    LowerKeepsDots(filename);
    if '.' in filename {
      var ext := Extension(filename);
      var head := filename[..|filename| - |ext| - 1];
      LowerAppend(head + ".", ext);
      LowerAppend(head, ".");
      assert Lower(".") == ".";
      LowerKeepsDots(ext);
      LowerIdempotent(ext);
      AllowedFileSplit(head, ext);
      AllowedFileSplit(Lower(head), Lower(ext));
    } else {
      NoDotRejected(Lower(filename));
    }
  }

  predicate EndsWith(s: string, suffix: string)
  {
    |suffix| <= |s| && s[|s| - |suffix|..] == suffix
  }

  /** After the last dot, a dotted suffix with a dot-free tail matches only the whole extension. */
  lemma DottedSuffix(head: string, ext: string, w: string)
    requires '.' !in ext && '.' !in w
    ensures EndsWith(head + "." + ext, "." + w) <==> ext == w
  {
    var s := head + "." + ext;
    var d := "." + w;
    if |ext| == |w| {
      assert s[|s| - |d|..] == "." + ext;
      assert d[1..] == w && ("." + ext)[1..] == ext;
    } else if |ext| > |w| {
      var k := |s| - |d|;
      assert s[k] == ext[|ext| - |w| - 1];
      assert s[k..][0] != d[0];
    } else if |d| <= |s| {
      var k := |s| - |d|;
      assert s[k..][|w| - |ext|] == '.';
      assert d[|w| - |ext|] == w[|w| - |ext| - 1];
    }
  }

  /** A name with no dot ends in no dotted suffix. */
  lemma NoDotNoSuffix(s: string, w: string)
    requires '.' !in s
    ensures !EndsWith(s, "." + w)
  {
    if |w| + 1 <= |s| {
      var k := |s| - |w| - 1;
      assert s[k] != '.';
      assert s[k..][0] != ("." + w)[0];
    }
  }

  /** An accepted name ends in a dot and its own (allowed) extension. */
  lemma SuffixOfAccepted(head: string, ext: string)
    requires '.' !in ext && Lower(ext) == ext && ext in ALLOWED_EXTENSIONS
    ensures exists w :: w in ALLOWED_EXTENSIONS && EndsWith(head + "." + ext, "." + w)
  {
    DottedSuffix(head, ext, ext);
  }

  /** A name ending in a dot and an allowed extension has that extension last. */
  lemma AcceptedOfSuffix(head: string, ext: string, w: string)
    requires '.' !in ext && w in ALLOWED_EXTENSIONS && EndsWith(head + "." + ext, "." + w)
    ensures ext == w
  {
    assert '.' !in w;
    DottedSuffix(head, ext, w);
  }

  /** For a lower-case name, the suffix test and the extension test agree. */
  lemma LowerNameBySuffix(t: string)
    requires Lower(t) == t
    ensures AllowedFile(t) <==> exists w :: w in ALLOWED_EXTENSIONS && EndsWith(t, "." + w)
  {
    if '.' in t {
      var ext := Extension(t);
      var head := t[..|t| - |ext| - 1];
      assert Lower(ext) == ext by {
        assert ext == t[|t| - |ext|..];
      }
      AllowedFileSplit(head, ext);
      if AllowedFile(t) {
        SuffixOfAccepted(head, ext);
      }
      if exists w :: w in ALLOWED_EXTENSIONS && EndsWith(t, "." + w) {
        var w :| w in ALLOWED_EXTENSIONS && EndsWith(t, "." + w);
        AcceptedOfSuffix(head, ext, w);
      }
    } else {
      forall w | w in ALLOWED_EXTENSIONS ensures !EndsWith(t, "." + w) {
        NoDotNoSuffix(t, w);
      }
    }
  }

  /**
   * Accepted exactly when the lower-cased name ends in a dot and an allowed
   * extension: ".png", ".jpg" or ".jpeg", the head before the dot possibly empty.
   */
  lemma AllowedBySuffix(filename: string)
    ensures AllowedFile(filename) <==>
      exists w :: w in ALLOWED_EXTENSIONS && EndsWith(Lower(filename), "." + w)
  {
    AllowedFileCaseInsensitive(filename);
    LowerIdempotent(filename);
    LowerNameBySuffix(Lower(filename));
  }

  /** A lower-case extension is accepted after any head, dots included or empty. */
  lemma AcceptedExamples(head: string)
    ensures AllowedFile(head + "." + "png") && AllowedFile(head + ".tar" + "." + "png")
    ensures AllowedFile(head + "." + "jpeg")
  {
    assert Lower("png") == "png" && Lower("jpeg") == "jpeg";
    AllowedFileSplit(head, "png");
    AllowedFileSplit(head + ".tar", "png");
    AllowedFileSplit(head, "jpeg");
  }

  /** The case of the extension does not matter: upper-case and mixed-case names are accepted. */
  lemma AcceptedAnyCase(head: string)
    ensures AllowedFile(head + "." + "JPG") && AllowedFile(head + "." + "JpEg")
  {
    assert Lower("JPG") == "jpg" && Lower("JpEg") == "jpeg";
    AllowedFileSplit(head, "JPG");
    AllowedFileSplit(head, "JpEg");
  }

  /** Only the last extension counts: "x.png.txt" is refused. */
  lemma RejectedTrailingExtension(head: string)
    ensures !AllowedFile(head + ".png" + "." + "txt")
  {
    assert Lower("txt") == "txt";
    AllowedFileSplit(head + ".png", "txt");
  }

  /** A name ending in a bare dot is refused. */
  lemma RejectedEmptyExtension(head: string)
    ensures !AllowedFile(head + "." + "")
  {
    assert Lower("") == "";
    AllowedFileSplit(head, "");
  }

  /** An extension outside the set is refused. */
  lemma RejectedOtherExtension(head: string)
    ensures !AllowedFile(head + "." + "gif")
  {
    assert Lower("gif") == "gif";
    AllowedFileSplit(head, "gif");
  }
}
