/** The file-name test of process_images: a file is taken as an image when
    its lower-cased name ends with png, jpg, jpeg, bmp or gif. There is no
    dot in the suffixes, so a name such as "xpng" is taken as well.
    Lower-casing is modelled for ASCII letters only. */
module ImageFilter {

  /** The suffixes process_images accepts, in the order it lists them. */
  const ImageSuffixes: seq<string> := ["png", "jpg", "jpeg", "bmp", "gif"]

  function LowerChar(c: char): char
  {
    if 'A' <= c <= 'Z' then (c as int + 32) as char else c
  }

  /** str.lower() restricted to ASCII: each upper-case letter becomes the
      lower-case letter at the same place in the alphabet, every other
      character is kept. */
  function Lower(s: string): (r: string)
    ensures |r| == |s|
    ensures forall k :: 0 <= k < |s| ==> !('A' <= r[k] <= 'Z')
    ensures forall k :: 0 <= k < |s| && !('A' <= s[k] <= 'Z') ==> r[k] == s[k]
    ensures forall k :: 0 <= k < |s| && 'A' <= s[k] <= 'Z' ==>
      'a' <= r[k] <= 'z' && r[k] as int - 'a' as int == s[k] as int - 'A' as int
  {
    seq(|s|, k requires 0 <= k < |s| => LowerChar(s[k]))
  }

  /** str.endswith for one suffix: the name is some prefix followed by it. */
  function EndsWith(s: string, suffix: string): (b: bool)
    ensures b <==> exists prefix :: s == prefix + suffix
  {
    assert forall prefix :: s == prefix + suffix ==>
      |suffix| <= |s| && s[|s| - |suffix|..] == suffix;
    if |suffix| <= |s| && s[|s| - |suffix|..] == suffix then
      assert s == s[..|s| - |suffix|] + suffix;
      true
    else
      false
  }

  /** str.endswith for a tuple of suffixes: true when any of them matches. */
  function EndsWithAny(s: string, suffixes: seq<string>): (b: bool)
    ensures b <==> exists k :: 0 <= k < |suffixes| && EndsWith(s, suffixes[k])
  {
    if |suffixes| == 0 then false
    else
      var rest := EndsWithAny(s, suffixes[1..]);
      assert forall k :: 1 <= k < |suffixes| ==> suffixes[k] == suffixes[1..][k - 1];
      EndsWith(s, suffixes[0]) || rest
  }

  /** The test process_images applies to every file name: it holds exactly
      when the lower-cased name is something followed by one of the five
      suffixes; no dot is required. */
  function IsImageFile(name: string): (b: bool)
    ensures b <==> exists prefix, k :: 0 <= k < |ImageSuffixes| && Lower(name) == prefix + ImageSuffixes[k]
  {
    EndsWithAny(Lower(name), ImageSuffixes)
  }

  /** The image files among a folder's files, in the order they were listed. */
  function SelectImageFiles(files: seq<string>): (r: seq<string>)
    ensures |r| <= |files|
    ensures forall f :: f in r <==> f in files && IsImageFile(f)
    ensures (forall k :: 0 <= k < |files| ==> IsImageFile(files[k])) ==> r == files
  {
    if |files| == 0 then []
    else
      var rest := SelectImageFiles(files[1..]);
      assert forall f :: f in files <==> f == files[0] || f in files[1..];
      if IsImageFile(files[0]) then [files[0]] + rest else rest
  }

  /** The test ignores letter case: names that lower-case alike are treated alike. */
  lemma {:induction false} CaseInsensitive(name: string)
    ensures IsImageFile(Lower(name)) == IsImageFile(name)
  {
    assert Lower(Lower(name)) == Lower(name);
  }

  /** An upper-case extension is accepted, and so is a bare suffix without a dot. */
  lemma AcceptedNames()
    ensures IsImageFile("photo.JPEG")
    ensures IsImageFile("xpng")
  {
    assert Lower("photo.JPEG") == "photo.jpeg";
    assert "photo.jpeg"[6..] == ImageSuffixes[2];
    assert Lower("xpng") == "xpng";
    assert "xpng"[1..] == ImageSuffixes[0];
  }

  /** Other extensions are not accepted. */
  lemma RejectsText()
    ensures !IsImageFile("notes.txt")
  {
    var l := Lower("notes.txt");
    assert l == "notes.txt";
    assert l[6..] == "txt" && l[5..] == ".txt";
    assert forall k :: 0 <= k < |ImageSuffixes| ==> !EndsWith(l, ImageSuffixes[k]);
  }

  /** The tool's own output files are not taken as input images. */
  lemma RejectsTiff()
    ensures !IsImageFile("grid.tif")
  {
    var l := Lower("grid.tif");
    assert l == "grid.tif";
    assert l[5..] == "tif" && l[4..] == ".tif";
    assert forall k :: 0 <= k < |ImageSuffixes| ==> !EndsWith(l, ImageSuffixes[k]);
  }
}
