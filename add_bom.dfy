/**
 * add_bom.py: the UTF-8 byte order mark is put in front of a file's bytes
 * unless they already start with it, and a directory walk picks the files
 * whose lower-cased name ends in `.yml`. Reading and writing the file and
 * walking the directory are left out.
 */
module AddBom {

  newtype byte = b: int | 0 <= b < 256

  /** Line 5: the three bytes of the mark. */
  const Bom: seq<byte> := [0xEF, 0xBB, 0xBF]

  predicate StartsWithBom(content: seq<byte>) {
    |content| >= 3 && content[..3] == Bom
  }

  /** Lines 12-17: the bytes written back (or kept) by `add_bom_to_file`. */
  function AddBom(content: seq<byte>): (r: seq<byte>)
    ensures StartsWithBom(r)
    ensures StartsWithBom(content) ==> r == content
    ensures !StartsWithBom(content) ==> r == Bom + content && r[3..] == content
  {
    if StartsWithBom(content) then content
    else
      var r := Bom + content;
      assert r[..3] == Bom;
      r
  }

  /** Applying the script twice to a file writes the mark once. */
  lemma AddBomIdempotent(content: seq<byte>)
    ensures AddBom(AddBom(content)) == AddBom(content)
  {
  }

  /** ASCII lower-casing of one character, as `str.lower` does on ASCII. */
  function LowerChar(c: char): (r: char)
    ensures 'A' <= c <= 'Z' ==> r as int == c as int + 32
    ensures !('A' <= c <= 'Z') ==> r == c
  {
    if 'A' <= c <= 'Z' then (c as int + 32) as char else c
  }

  function Lower(s: string): (r: string)
    ensures |r| == |s| && forall i :: 0 <= i < |s| ==> r[i] == LowerChar(s[i])
  {
    seq(|s|, i requires 0 <= i < |s| => LowerChar(s[i]))
  }

  const YmlSuffix: string := ".yml"

  /** Line 24: `file.lower().endswith(".yml")`. */
  predicate IsYmlFile(name: string) {
    var l := Lower(name);
    |YmlSuffix| <= |l| && l[|l| - |YmlSuffix|..] == YmlSuffix
  }

  /** The name ends in a dot and `y`, `m`, `l`, each in either case. */
  predicate EndsInYml(name: string) {
    var n := |name|;
    n >= 4 && name[n - 4] == '.' && name[n - 3] in "yY" && name[n - 2] in "mM" && name[n - 1] in "lL"
  }

  /** The filter accepts exactly the names with a `.yml` suffix in any mix of cases. */
  lemma IsYmlFileIff(name: string)
    ensures IsYmlFile(name) <==> EndsInYml(name)
  {
    var l := Lower(name);
    var n := |name|;
    if n >= 4 {
      if IsYmlFile(name) {
        assert forall k :: 0 <= k < 4 ==> l[n - 4 + k] == YmlSuffix[k] by {
          assert l[n - 4..] == YmlSuffix;
        }
        assert LowerChar(name[n - 4]) == '.' && LowerChar(name[n - 3]) == 'y';
        assert LowerChar(name[n - 2]) == 'm' && LowerChar(name[n - 1]) == 'l';
      }
      if EndsInYml(name) {
        assert l[n - 4..] == YmlSuffix by {
          assert forall k :: 0 <= k < 4 ==> l[n - 4 + k] == YmlSuffix[k];
        }
      }
    }
  }

  /** Upper-case suffixes are taken, other YAML suffixes are not. */
  lemma YmlExamples()
    ensures IsYmlFile("l_czech.YML") && IsYmlFile("languages.yml")
    ensures !IsYmlFile("languages.yaml") && !IsYmlFile("yml")
  {
    IsYmlFileIff("l_czech.YML");
    IsYmlFileIff("languages.yml");
    IsYmlFileIff("languages.yaml");
    IsYmlFileIff("yml");
  }
}
