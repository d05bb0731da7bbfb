/** The flag word and the return codes of fnmatch (include/os2/fnmatch.h). */
module FnmatchFlags {
  import opened CStrings

  datatype Verdict = Match | NoMatch | Error {
    function Code(): int {
      match this
      case Match => 0
      case NoMatch => 1
      case Error => 2
    }
  }

  datatype Style = Posix | Os2 | Dos | Unknown

  const FNM_NOESCAPE: bv32 := 16
  const FNM_PATHNAME: bv32 := 32
  const FNM_PERIOD: bv32 := 64
  const FNM_STYLE_MASK: bv32 := 15
  const FNM_POSIX: bv32 := 0
  const FNM_OS2: bv32 := 1
  const FNM_DOS: bv32 := 2
  const FNM_IGNORECASE: bv32 := 128
  const FNM_PATHPREFIX: bv32 := 256

  /** A decoded flag word. */
  datatype Options = Options(
    style: Style,
    noEscape: bool,
    pathName: bool,
    period: bool,
    ignoreCase: bool,
    pathPrefix: bool)

  function Decode(flags: bv32): Options {
    var style := flags & FNM_STYLE_MASK;
    Options(
      if style == FNM_POSIX then Posix
      else if style == FNM_OS2 then Os2
      else if style == FNM_DOS then Dos
      else Unknown,
      flags & FNM_NOESCAPE != 0,
      flags & FNM_PATHNAME != 0,
      flags & FNM_PERIOD != 0,
      flags & FNM_IGNORECASE != 0,
      flags & FNM_PATHPREFIX != 0)
  }

  /** The comparison of two characters, under _FNM_IGNORECASE or without it. */
  predicate SameChar(c: char, d: char, o: Options) {
    if o.ignoreCase then ToLower(c) == ToLower(d) else c == d
  }
}
