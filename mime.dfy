/**
  `guessMimeType` in sharedir.go: the content type of a served file, from
  its extension. The extension table behind `mime.TypeByExtension` is a
  parameter; "" stands for an extension it does not know.
*/
module Mime {
  import opened FilePath

  /** The type assumed when nothing better is known: binary data. */
  const DefaultMimeType: string := "application/octet-stream"

  /**
    The type registered for the extension of `fp`, or the default when
    `fp` has no extension or the extension is not registered.
  */
  function GuessMimeType(fp: string, typeByExtension: string -> string): (m: string)
    ensures m != ""
    ensures Ext(fp) != "" && typeByExtension(Ext(fp)) != "" ==> m == typeByExtension(Ext(fp))
    ensures Ext(fp) == "" || typeByExtension(Ext(fp)) == "" ==> m == DefaultMimeType
  {
    var ext := Ext(fp);
    if ext != "" && typeByExtension(ext) != "" then typeByExtension(ext) else DefaultMimeType
  }

  /**
    Only the final element of the path matters, and the table is consulted
    only with a key that starts with '.', holds no other '.' and no
    separator, and ends the path.
  */
  lemma GuessUsesFinalElement(d: string, x: string, typeByExtension: string -> string)
    requires Sep !in x
    ensures GuessMimeType(d + [Sep] + x, typeByExtension) == GuessMimeType(x, typeByExtension)
    ensures var m, e := GuessMimeType(x, typeByExtension), Ext(x);
      m != DefaultMimeType ==>
        && |e| >= 1 && e[0] == '.' && '.' !in e[1..] && Sep !in e
        && |e| <= |x| && x[|x| - |e|..] == e && m == typeByExtension(e)
  {
    ExtLast(d, x);
  }

  /** A final element without '.' (in particular the empty `rel` of the root) gets the default type. */
  lemma GuessWithoutDot(fp: string, typeByExtension: string -> string)
    requires '.' !in fp[LastSep(fp) + 1..]
    ensures GuessMimeType(fp, typeByExtension) == DefaultMimeType
  {
    ExtEmpty(fp);
  }

  /** A final element with a '.' is looked up, and its registered type is used. */
  lemma GuessWithDot(fp: string, typeByExtension: string -> string)
    requires '.' in fp[LastSep(fp) + 1..] && typeByExtension(Ext(fp)) != ""
    ensures Ext(fp) != "" && GuessMimeType(fp, typeByExtension) == typeByExtension(Ext(fp))
  {
    ExtEmpty(fp);
  }
}
