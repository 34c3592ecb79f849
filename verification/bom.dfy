/**
 * `utf8_has_bom`: does the string begin with the byte-order mark of
 * section 6 of RFC 3629?
 */
module Bom {
  import opened Utf8Defs
  import opened CString

  /** The C function first checks that none of the first three bytes is the
      terminator, with a short-circuit `&&`, and only then compares them with
      `UTF8_BOM`. Every read here goes through `At`, so none goes past the
      buffer's final zero; `HasBomStopsAtZero` shows that the answer does not
      depend on the bytes after any zero either. */
  function HasBom(s: seq<Byte>): (r: bool)
    ensures r <==> |s| >= BOM_STRLEN && s[..BOM_STRLEN] == BOM
  {
    if At(s, 0) != 0 && At(s, 1) != 0 && At(s, 2) != 0 then
      At(s, 0) == BOM[0] && At(s, 1) == BOM[1] && At(s, 2) == BOM[2]
    else
      false
  }

  /** The answer does not depend on anything after the first zero byte. */
  lemma HasBomStopsAtZero(s: seq<Byte>, z: nat)
    requires z < |s| && s[z] == 0
    ensures HasBom(s) == HasBom(s[..z])
  {
    if z >= BOM_STRLEN {
      assert s[..z][..BOM_STRLEN] == s[..BOM_STRLEN];
    }
  }
}
