/** The file-name filter `Main` hands to `listFiles`: a name is an image
    when its lower-case form ends in `.png`, `.jpg`, `.jpeg`, `.gif` or
    `.bmp`. Lower-casing is the ASCII mapping of letters A-Z. */
module FileFilter {

  /** `Character.toLowerCase` on ASCII: A-Z to a-z, everything else kept. */
  function LowerChar(c: char): char {
    if 'A' <= c <= 'Z' then (c as int + ('a' as int - 'A' as int)) as char else c
  }

  /** `String.toLowerCase`, character by character. */
  function Lower(s: string): (r: string)
    ensures |r| == |s|
    ensures forall i :: 0 <= i < |s| ==> r[i] == LowerChar(s[i])
  {
    seq(|s|, i requires 0 <= i < |s| => LowerChar(s[i]))
  }

  predicate EndsWith(s: string, suffix: string) {
    |suffix| <= |s| && s[|s| - |suffix|..] == suffix
  }

  /** The accepted extensions, lower case, with their dot. */
  const Extensions: seq<string> := [".png", ".jpg", ".jpeg", ".gif", ".bmp"]

  /** The filter lambda of `selectFolder`. */
  predicate IsImageName(name: string) {
    var lower := Lower(name);
    EndsWith(lower, ".png") || EndsWith(lower, ".jpg") ||
    EndsWith(lower, ".jpeg") || EndsWith(lower, ".gif") || EndsWith(lower, ".bmp")
  }

  predicate IsLetter(c: char) {
    'A' <= c <= 'Z' || 'a' <= c <= 'z'
  }

  /** Two characters that are the same letter up to case, or simply equal:
      upper and lower case ASCII letters lie 32 code points apart. */
  predicate SameIgnoringCase(c: char, d: char) {
    c == d ||
    (IsLetter(c) && IsLetter(d) &&
      (c as int - d as int == 32 || d as int - c as int == 32))
  }

  /** Two strings equal up to the case of their letters. */
  predicate EqualIgnoringCase(a: string, b: string) {
    |a| == |b| && forall i :: 0 <= i < |a| ==> SameIgnoringCase(a[i], b[i])
  }

  /** Lower-casing identifies exactly the characters that are equal up to
      case. */
  lemma LowerCharSame(c: char, d: char)
    ensures LowerChar(c) == LowerChar(d) <==> SameIgnoringCase(c, d)
  {
  }

  /** Lower-casing identifies exactly the strings that are equal up to
      case. */
  lemma LowerSame(a: string, b: string)
    ensures Lower(a) == Lower(b) <==> EqualIgnoringCase(a, b)
  {
    if |a| == |b| {
      forall i | 0 <= i < |a|
        ensures Lower(a)[i] == Lower(b)[i] <==> SameIgnoringCase(a[i], b[i])
      {
        LowerCharSame(a[i], b[i]);
      }
      if EqualIgnoringCase(a, b) {
        assert Lower(a) == Lower(b);
      }
    }
  }

  /** `name` ends with `ext`, up to the case of letters. */
  predicate EndsWithIgnoringCase(name: string, ext: string) {
    |ext| <= |name| && EqualIgnoringCase(name[|name| - |ext|..], ext)
  }

  /** A lower-case suffix ends the lower-cased name exactly when the name
      ends with it up to case. */
  lemma LowerEndsWith(name: string, ext: string)
    requires Lower(ext) == ext
    ensures EndsWith(Lower(name), ext) <==> EndsWithIgnoringCase(name, ext)
  {
    if |ext| <= |name| {
      var tail := name[|name| - |ext|..];
      assert Lower(name)[|name| - |ext|..] == Lower(tail);
      LowerSame(tail, ext);
    }
  }

  /** The extensions are already lower case. */
  lemma ExtensionsLowerCase()
    ensures forall ext :: ext in Extensions ==> Lower(ext) == ext
  {
    assert Lower(".png") == ".png";
    assert Lower(".jpg") == ".jpg";
    assert Lower(".jpeg") == ".jpeg";
    assert Lower(".gif") == ".gif";
    assert Lower(".bmp") == ".bmp";
  }

  /** The filter is "ends with one of the extensions", checked on the
      lower-cased name. */
  lemma IsImageNameAnyExtension(name: string)
    ensures IsImageName(name) <==> exists ext :: ext in Extensions && EndsWith(Lower(name), ext)
  {
    var lower := Lower(name);
    if IsImageName(name) {
      if EndsWith(lower, ".png") {
        assert ".png" in Extensions;
      } else if EndsWith(lower, ".jpg") {
        assert ".jpg" in Extensions;
      } else if EndsWith(lower, ".jpeg") {
        assert ".jpeg" in Extensions;
      } else if EndsWith(lower, ".gif") {
        assert ".gif" in Extensions;
      } else {
        assert ".bmp" in Extensions;
      }
    }
  }

  /** The filter, restated without lower-casing: a name is accepted exactly
      when it ends with one of the extensions up to case. */
  lemma IsImageNameIgnoringCase(name: string)
    ensures IsImageName(name) <==>
      exists ext :: ext in Extensions && EndsWithIgnoringCase(name, ext)
  {
    IsImageNameAnyExtension(name);
    ExtensionsLowerCase();
    forall ext | ext in Extensions
      ensures EndsWith(Lower(name), ext) <==> EndsWithIgnoringCase(name, ext)
    {
      LowerEndsWith(name, ext);
    }
  }

  /** Two names that differ only in the case of their letters are accepted
      or rejected together. */
  lemma CaseInsensitive(a: string, b: string)
    requires EqualIgnoringCase(a, b)
    ensures IsImageName(a) <==> IsImageName(b)
  {
    LowerSame(a, b);
  }

  /** Names the filter accepts, whatever the case of the extension. */
  lemma AcceptedExamples()
    ensures IsImageName("Beach.JPG") && IsImageName("scan.Jpeg")
  {
    assert Lower("Beach.JPG") == "beach.jpg";
    assert Lower("scan.Jpeg") == "scan.jpeg";
  }

  /** The dot is part of the extension: a name that is only an extension
      is accepted, the same letters without the dot are not. */
  lemma DotExamples()
    ensures IsImageName(".gif") && !IsImageName("png")
  {
    assert Lower(".gif") == ".gif";
    assert Lower("png") == "png";
  }

  /** Every extension ends in `g`, `f` or `p`: a name whose last character
      is none of these, in either case, is rejected. */
  lemma LastCharacterRejects(name: string)
    requires |name| > 0
    requires LowerChar(name[|name| - 1]) !in {'g', 'f', 'p'}
    ensures !IsImageName(name)
  {
    var lower := Lower(name);
    assert lower[|lower| - 1] == LowerChar(name[|name| - 1]);
  }

  /** Names the filter rejects: another extension, and an image extension
      that is not last. */
  lemma RejectedExamples()
    ensures !IsImageName("notes.txt") && !IsImageName("photo.png.txt")
  {
    LastCharacterRejects("notes.txt");
    LastCharacterRejects("photo.png.txt");
  }

  /** `listFiles(filter)`: the accepted names, in listing order. */
  function ImageFiles(names: seq<string>): (files: seq<string>)
    ensures |files| <= |names|
    ensures forall f :: f in files <==> f in names && IsImageName(f)
  {
    if |names| == 0 then []
    else
      var rest := ImageFiles(names[1..]);
      assert forall f :: f in names <==> f == names[0] || f in names[1..];
      if IsImageName(names[0]) then [names[0]] + rest else rest
  }

  /** Filtering a concatenation filters each part in turn: accepted names
      keep their listing order. */
  lemma {:induction false} ImageFilesAppend(a: seq<string>, b: seq<string>)
    ensures ImageFiles(a + b) == ImageFiles(a) + ImageFiles(b)
  {
    if |a| == 0 {
      assert a + b == b;
    } else {
      assert (a + b)[0] == a[0];
      assert (a + b)[1..] == a[1..] + b;
      ImageFilesAppend(a[1..], b);
    }
  }
}
