/**
 * The two file-name helpers of the command line (src/main.go): the image
 * filter and the output-name rewrite. Paths use '/' as the only separator
 * and case folding is ASCII only.
 */
module FileNames {

  /**
   * filepath.Ext: the suffix starting at the last '.' of the last path
   * element, or "" when that element has no '.'.
   */
  function Ext(path: string): (e: string)
    ensures |e| <= |path| && e == path[|path| - |e|..]
    ensures e != "" ==> e[0] == '.' && forall j :: 0 < j < |e| ==> e[j] != '.' && e[j] != '/'
  {
    if |path| == 0 then ""
    else
      var c := path[|path| - 1];
      var init := path[..|path| - 1];
      if c == '/' then ""
      else if c == '.' then "."
      else
        var e := Ext(init);
        assert path == init + [c];
        if e == "" then "" else e + [c]
  }

  /** strings.ToLower, for ASCII letters. */
  function ToLower(s: string): (r: string)
    ensures |r| == |s|
    ensures forall i :: 0 <= i < |s| ==> !('A' <= r[i] <= 'Z')
    ensures forall i :: 0 <= i < |s| && !('A' <= s[i] <= 'Z') ==> r[i] == s[i]
  {
    seq(|s|, i requires 0 <= i < |s| => if 'A' <= s[i] <= 'Z' then (s[i] as int + 32) as char else s[i])
  }

  /** isSupportedImage: the lower-cased extension is one of the four decodable ones. */
  predicate IsSupportedImage(name: string)
    ensures IsSupportedImage(name) ==> (|Ext(name)| == 4 || |Ext(name)| == 5) && Ext(name)[0] == '.'
  {
    ToLower(Ext(name)) in {".png", ".jpg", ".jpeg", ".gif"}
  }

  /** strings.TrimSuffix: `s` without `suffix` when it ends with it, else `s`. */
  function TrimSuffix(s: string, suffix: string): (r: string)
    ensures (|suffix| <= |s| && s[|s| - |suffix|..] == suffix) ==> r + suffix == s
    ensures !(|suffix| <= |s| && s[|s| - |suffix|..] == suffix) ==> r == s
  {
    if |suffix| <= |s| && s[|s| - |suffix|..] == suffix then s[..|s| - |suffix|] else s
  }

  /** strings.HasPrefix. */
  predicate HasPrefix(s: string, prefix: string)
  {
    |prefix| <= |s| && s[..|prefix|] == prefix
  }

  /**
   * replaceExt: the name without its extension, then the new extension
   * with a '.' put in front unless it already starts with one.
   */
  function ReplaceExt(name: string, newExt: string): (r: string)
    ensures r == name[..|name| - |Ext(name)|] + (if HasPrefix(newExt, ".") then newExt else "." + newExt)
  {
    var base := TrimSuffix(name, Ext(name));
    var e := if !HasPrefix(newExt, ".") then "." + newExt else newExt;
    base + e
  }

  /** An extension proper: one leading '.', and no other '.' or '/'. */
  predicate PlainExt(e: string)
  {
    |e| > 0 && e[0] == '.' && forall j :: 0 < j < |e| ==> e[j] != '.' && e[j] != '/'
  }

  /** Appending a plain extension makes it the extension of the result. */
  lemma {:induction false} ExtOfAppend(s: string, e: string)
    requires PlainExt(e)
    ensures Ext(s + e) == e
    decreases |e|
  {
    var p := s + e;
    assert p[..|p| - 1] == s + e[..|e| - 1];
    if |e| > 1 {
      ExtOfAppend(s, e[..|e| - 1]);
    }
  }

  /** A new extension given without its dot gets one: "png" and ".png" give the same name. */
  lemma DotIsOptional(name: string, x: string)
    requires !HasPrefix(x, ".")
    ensures ReplaceExt(name, x) == ReplaceExt(name, "." + x)
  {
    assert HasPrefix("." + x, ".") by { assert ("." + x)[..1] == "."; }
  }

  /** With a plain extension, the result's extension is exactly the one asked for. */
  lemma ReplacedExt(name: string, e: string)
    requires PlainExt(e)
    ensures Ext(ReplaceExt(name, e)) == e
  {
    assert HasPrefix(e, ".") by { assert e[..1] == "."; }
    ExtOfAppend(name[..|name| - |Ext(name)|], e);
  }

  /** Replacing with the same plain extension twice changes nothing the second time. */
  lemma ReplaceExtIdempotent(name: string, e: string)
    requires PlainExt(e)
    ensures ReplaceExt(ReplaceExt(name, e), e) == ReplaceExt(name, e)
  {
    var once := ReplaceExt(name, e);
    var base := name[..|name| - |Ext(name)|];
    assert HasPrefix(e, ".") by { assert e[..1] == "."; }
    assert once == base + e;
    ExtOfAppend(base, e);
    assert once[..|once| - |e|] == base;
  }

  /** Every output name is accepted by the image filter, whatever the input name. */
  lemma OutputIsSupported(name: string)
    ensures IsSupportedImage(ReplaceExt(name, ".png"))
  {
    var png := ".png";
    assert png[0] == '.' && png[1] == 'p' && png[2] == 'n' && png[3] == 'g';
    assert PlainExt(png);
    ReplacedExt(name, png);
    assert forall i :: 0 <= i < |png| ==> !('A' <= png[i] <= 'Z') by {
      forall i | 0 <= i < |png| ensures !('A' <= png[i] <= 'Z') {
        assert i == 0 || i == 1 || i == 2 || i == 3;
      }
    }
    LowerOfLower(png);
  }

  /** Lower-casing leaves a string without upper-case letters as it is. */
  lemma LowerOfLower(s: string)
    requires forall i :: 0 <= i < |s| ==> !('A' <= s[i] <= 'Z')
    ensures ToLower(s) == s
  {
  }

  /** The filter ignores case: "A.JPG" passes. */
  lemma UpperCaseAccepted()
    ensures IsSupportedImage("A.JPG")
  {
    ExtOfAppend("A", ".JPG");
    assert "A" + ".JPG" == "A.JPG";
    assert ToLower(".JPG") == ".jpg";
  }

  /** A name without any '.' has no extension. */
  lemma {:induction false} ExtWithoutDot(s: string)
    requires forall j :: 0 <= j < |s| ==> s[j] != '.'
    ensures Ext(s) == ""
    decreases |s|
  {
    if |s| > 0 {
      ExtWithoutDot(s[..|s| - 1]);
    }
  }

  /** A name without any '.' is rejected by the filter, e.g. "png". */
  lemma NoDotRejected(name: string)
    requires forall j :: 0 <= j < |name| ==> name[j] != '.'
    ensures !IsSupportedImage(name)
  {
    ExtWithoutDot(name);
    assert ToLower("") == "";
  }

  /** A dot before the last '/' is not an extension. */
  lemma {:induction false} ExtAfterSeparator(dir: string, file: string)
    requires forall j :: 0 <= j < |file| ==> file[j] != '.' && file[j] != '/'
    ensures Ext(dir + "/" + file) == ""
    decreases |file|
  {
    var p := dir + "/" + file;
    if |file| > 0 {
      assert p[..|p| - 1] == dir + "/" + file[..|file| - 1];
      ExtAfterSeparator(dir, file[..|file| - 1]);
    } else {
      assert p[|p| - 1] == '/';
    }
  }

  /**
   * A last path element without a dot keeps all its text, whatever dots the
   * directories hold: "dir.d/file" becomes "dir.d/file.png".
   */
  lemma NoDotKeepsName(dir: string, file: string, x: string)
    requires forall j :: 0 <= j < |file| ==> file[j] != '.' && file[j] != '/'
    requires !HasPrefix(x, ".")
    ensures ReplaceExt(dir + "/" + file, x) == dir + "/" + file + "." + x
  {
    ExtAfterSeparator(dir, file);
  }

  lemma NamedExamples()
    ensures !IsSupportedImage("png")
    ensures ReplaceExt("dir.d/file", "png") == "dir.d/file.png"
  {
    NoDotRejected("png");
    assert !HasPrefix("png", ".") by { assert "png"[..1] == "p"; }
    NoDotKeepsName("dir.d", "file", "png");
    assert "dir.d" + "/" + "file" == "dir.d/file";
  }
}
