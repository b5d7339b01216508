/**
 * The file-name check of the upload form: `allowed_file` and
 * `ALLOWED_EXTENSIONS`. Python's `str.rfind`, negative slicing and
 * `str.lower` (on ASCII letters) are written out.
 */
module Upload {

  /** `ALLOWED_EXTENSIONS`. */
  const AllowedExtensions: set<string> := {".png", ".jpg", ".jpeg"}

  /** Python's `s.rfind(c)`: the index of the last occurrence of c in s, or -1 when there is none. */
  function RFind(s: string, c: char): (r: int)
    ensures -1 <= r < |s|
    ensures 0 <= r ==> s[r] == c
    ensures forall j :: r < j < |s| ==> s[j] != c
  {
    if s == [] then -1
    else if s[|s| - 1] == c then |s| - 1
    else RFind(s[..|s| - 1], c)
  }

  /** Python's `s[i:]`: a negative start counts from the end and is clamped at 0. */
  function SuffixFrom(s: string, i: int): (t: string)
    ensures |t| <= |s| && t == s[|s| - |t|..]
    ensures 0 <= i <= |s| ==> |t| == |s| - i
    ensures -|s| <= i < 0 ==> |t| == -i
    ensures |s| < i ==> t == []
    ensures i < -|s| ==> t == s
  {
    if 0 <= i then (if i <= |s| then s[i..] else [])
    else if -i <= |s| then s[|s| + i..]
    else s
  }

  predicate IsUpper(c: char) {
    'A' <= c <= 'Z'
  }

  /** `str.lower` on one character, for ASCII letters. */
  function LowerChar(c: char): (d: char)
    ensures !IsUpper(d)
    ensures !IsUpper(c) ==> d == c
    ensures IsUpper(c) ==> 'a' <= d <= 'z' && d as int - 'a' as int == c as int - 'A' as int
  {
    if IsUpper(c) then (c as int - 'A' as int + 'a' as int) as char else c
  }

  /**
   * `str.lower`: no capital is left, a capital becomes its own small letter,
   * and every other character is kept.
   */
  function Lower(s: string): (t: string)
    ensures |t| == |s|
    ensures forall i :: 0 <= i < |t| ==> !IsUpper(t[i])
    ensures forall i :: 0 <= i < |s| && !IsUpper(s[i]) ==> t[i] == s[i]
    ensures forall i :: 0 <= i < |s| && IsUpper(s[i]) ==> t[i] as int - 'a' as int == s[i] as int - 'A' as int
  {
    seq(|s|, i requires 0 <= i < |s| => LowerChar(s[i]))
  }

  /** `allowed_file`: the name from its last '.' on, lower-cased, is an allowed extension. */
  predicate AllowedFile(fileName: string) {
    Lower(SuffixFrom(fileName, RFind(fileName, '.'))) in AllowedExtensions
  }

  /** The name ends with `ext`, ignoring the case of its letters. */
  predicate EndsWithIgnoreCase(name: string, ext: string) {
    |ext| <= |name| && Lower(name[|name| - |ext|..]) == ext
  }

  /** Lower-casing twice is lower-casing once. */
  lemma LowerIdempotent(s: string)
    ensures Lower(Lower(s)) == Lower(s)
  {
  }

  /** Every allowed extension is a '.' followed by at least three characters, none of them a '.'. */
  lemma AllowedExtensionsForm(ext: string)
    requires ext in AllowedExtensions
    ensures |ext| >= 4 && ext[0] == '.' && forall k :: 1 <= k < |ext| ==> ext[k] != '.'
  {
  }

  /** A '.' at p with no '.' after it is what rfind finds. */
  lemma RFindIsLast(s: string, c: char, p: nat)
    requires p < |s| && s[p] == c
    requires forall j :: p < j < |s| ==> s[j] != c
    ensures RFind(s, c) == p
  {
  }

  /** A name that ends with an allowed extension, in any case, passes. */
  lemma AllowedSuffixAccepted(name: string, ext: string)
    requires ext in AllowedExtensions && EndsWithIgnoreCase(name, ext)
    ensures AllowedFile(name)
  {
    var p := |name| - |ext|;
    var low := Lower(name[p..]);
    AllowedExtensionsForm(ext);
    assert LowerChar(name[p]) == low[0];
    assert name[p] == '.';
    forall j | p < j < |name|
      ensures name[j] != '.'
    {
      assert LowerChar(name[j]) == low[j - p];
    }
    RFindIsLast(name, '.', p);
  }

  /**
   * allowed_file accepts exactly the names that end, ignoring case, with
   * `.png`, `.jpg` or `.jpeg`.
   */
  lemma AllowedFileIff(name: string)
    ensures AllowedFile(name) <==>
      EndsWithIgnoreCase(name, ".png") || EndsWithIgnoreCase(name, ".jpg") || EndsWithIgnoreCase(name, ".jpeg")
  {
    if AllowedFile(name) {
      var t := SuffixFrom(name, RFind(name, '.'));
      var ext := Lower(t);
      assert |ext| == |t| && name[|name| - |ext|..] == t;
      assert EndsWithIgnoreCase(name, ext);
    }
    if EndsWithIgnoreCase(name, ".png") {
      AllowedSuffixAccepted(name, ".png");
    } else if EndsWithIgnoreCase(name, ".jpg") {
      AllowedSuffixAccepted(name, ".jpg");
    } else if EndsWithIgnoreCase(name, ".jpeg") {
      AllowedSuffixAccepted(name, ".jpeg");
    }
  }

  /**
   * Without a '.', rfind gives -1 and the slice keeps at most the last
   * character, shorter than any allowed extension: the name is refused.
   */
  lemma NoDotRefused(name: string)
    requires '.' !in name
    ensures !AllowedFile(name)
  {
    assert RFind(name, '.') == -1;
    assert |SuffixFrom(name, -1)| <= 1;
  }

  /** Lower-casing a name first does not change the verdict. */
  lemma AllowedFileCaseInsensitive(name: string)
    ensures AllowedFile(Lower(name)) <==> AllowedFile(name)
  {
    var low := Lower(name);
    forall ext: string | |ext| <= |name|
      ensures EndsWithIgnoreCase(low, ext) <==> EndsWithIgnoreCase(name, ext)
    {
      assert Lower(low[|low| - |ext|..]) == Lower(name[|name| - |ext|..]);
    }
    AllowedFileIff(name);
    AllowedFileIff(low);
  }

  /** Mixed case: `a.PNG` passes. */
  lemma AcceptsUpperCase()
    ensures AllowedFile("a.PNG")
  {
    var t := "a.PNG"[1..];
    assert t == ['.', 'P', 'N', 'G'];
    assert Lower(t) == ".png";
    AllowedSuffixAccepted("a.PNG", ".png");
  }

  /** Several dots: the part after the last one decides, so `a.png.txt` is refused. */
  lemma RefusesInnerExtension()
    ensures !AllowedFile("a.png.txt")
  {
    var name := "a.png.txt";
    RFindIsLast(name, '.', 5);
    assert name[5..] == ['.', 't', 'x', 't'];
    assert Lower(name[5..]) == ".txt";
  }

  /** No dot, and the empty name: refused. */
  lemma RefusedWithoutDot()
    ensures !AllowedFile("png")
    ensures !AllowedFile("")
  {
    NoDotRefused("png");
    NoDotRefused("");
  }
}
