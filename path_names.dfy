/** File names as pathlib sees them: the final suffix, the stem, and the
    case-insensitive extension tests used when scanning a directory. */
module PathNames {

  /** Index of the last occurrence of c in s, or -1 (str.rfind). */
  function RFind(s: string, c: char): (i: int)
    ensures -1 <= i < |s|
    ensures i >= 0 ==> s[i] == c && forall j :: i < j < |s| ==> s[j] != c
    ensures i == -1 ==> c !in s
  {
    if s == [] then -1
    else if s[|s| - 1] == c then |s| - 1
    else RFind(s[..|s| - 1], c)
  }

  /** Path.suffix: from the last dot to the end, unless that dot is the first or
      the last character of the name, in which case there is no suffix. */
  function Suffix(name: string): (r: string)
  {
    var i := RFind(name, '.');
    if 0 < i < |name| - 1 then name[i..] else ""
  }

  /** Path.stem: the name without its suffix. */
  function Stem(name: string): (r: string)
  {
    var i := RFind(name, '.');
    if 0 < i < |name| - 1 then name[..i] else name
  }

  /** The stem and the suffix split the name; a suffix is a dot, at least one
      character, and no further dot; the stem is never empty unless the name is. */
  lemma StemSuffixSplit(name: string)
    ensures Stem(name) + Suffix(name) == name
    ensures Suffix(name) != "" ==>
              |Suffix(name)| >= 2 && Suffix(name)[0] == '.' && '.' !in Suffix(name)[1..] && Stem(name) != ""
    ensures Suffix(name) == "" ==> Stem(name) == name
  {
    var i := RFind(name, '.');
    if 0 < i < |name| - 1 {
      assert name[..i] + name[i..] == name;
      assert forall k :: 0 <= k < |name[i..][1..]| ==> name[i..][1..][k] == name[i + 1 + k];
    }
  }

  /** str.lower() restricted to ASCII letters. */
  function AsciiLower(s: string): (r: string)
    ensures |r| == |s|
    ensures forall k :: 0 <= k < |s| ==>
              r[k] == if 'A' <= s[k] <= 'Z' then (s[k] as int + 32) as char else s[k]
  {
    if s == [] then []
    else AsciiLower(s[..|s| - 1]) + [if 'A' <= s[|s| - 1] <= 'Z' then (s[|s| - 1] as int + 32) as char else s[|s| - 1]]
  }

  /** The extensions the upload scan converts. */
  const UploadSuffixes: seq<string> := [".png", ".jpg", ".jpeg", ".gif", ".bmp"]

  /** The extensions the fallback selector offers. */
  const FallbackSuffixes: seq<string> := [".png", ".jpg", ".jpeg"]

  predicate HasUploadSuffix(name: string) {
    AsciiLower(Suffix(name)) in UploadSuffixes
  }

  predicate HasFallbackSuffix(name: string) {
    AsciiLower(Suffix(name)) in FallbackSuffixes
  }

  /** Every name the fallback selector offers is also one the upload scan converts. */
  lemma FallbackSuffixIsUploadSuffix(name: string)
    requires HasFallbackSuffix(name)
    ensures HasUploadSuffix(name)
  {
  }

  /** Name of the converted file: the upload's stem with a ".png" suffix. */
  function OutputName(name: string): string {
    Stem(name) + ".png"
  }

  /** A non-empty stem followed by ".png" has suffix ".png" and keeps the stem. */
  lemma PngSuffix(stem: string)
    requires stem != ""
    ensures Suffix(stem + ".png") == ".png"
    ensures Stem(stem + ".png") == stem
  {
    var out := stem + ".png";
    assert out[|stem|] == '.';
    assert forall j :: |stem| < j < |out| ==> out[j] != '.';
    assert RFind(out, '.') == |stem|;
    assert out[|stem|..] == ".png";
    assert out[..|stem|] == stem;
  }

  /** pathlib reads the output name of any non-empty name back as the same
      stem with the suffix ".png". */
  lemma OutputNameParts(name: string)
    requires name != ""
    ensures Suffix(OutputName(name)) == ".png"
    ensures Stem(OutputName(name)) == Stem(name)
  {
    PngSuffix(Stem(name));
  }

  /** A non-empty stem followed by ".png" names a fallback picture. */
  lemma PngIsFallback(stem: string)
    requires stem != ""
    ensures HasFallbackSuffix(stem + ".png")
  {
    PngSuffix(stem);
    assert AsciiLower(".png") == ".png";
  }

  /** A name with an upload suffix has a suffix, and a non-empty stem before it. */
  lemma UploadStemNonEmpty(name: string)
    requires HasUploadSuffix(name)
    ensures Suffix(name) != "" && Stem(name) != ""
  {
    StemSuffixSplit(name);
    assert |AsciiLower(Suffix(name))| == |Suffix(name)|;
  }

  /** Every converted upload is stored under a name the fallback selector offers,
      and it keeps the upload's stem. */
  lemma OutputNameIsFallbackCandidate(name: string)
    requires HasUploadSuffix(name)
    ensures HasFallbackSuffix(OutputName(name))
    ensures Stem(OutputName(name)) == Stem(name)
  {
    UploadStemNonEmpty(name);
    PngSuffix(Stem(name));
    PngIsFallback(Stem(name));
  }
}
