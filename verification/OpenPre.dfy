/** The open hook of the sample security driver (skeleton/ses/sec32_OPEN_PRE.c): it denies access
    to files called CONFIG.*, in any directory. */
module OpenPre {
  import opened CStrings
  import opened FnmatchFlags
  import opened FnmatchPaths
  import opened FnmatchLaws
  import Comp = FnmatchOs2

  datatype Rc = NoError | AccessDenied | InvalidParameter

  /** The position of the last separator; 0 when there is none after position 0. */
  ghost predicate IsLastSep(path: string, i: nat) {
    && (i == 0 || (i < |path| && Comp.IsSep(path[i])))
    && forall k :: i < k < |path| ==> !Comp.IsSep(path[k])
  }

  /** The file name is `config`, or begins with `config.`, in upper or lower case. */
  predicate IsConfig(file: string) {
    var f := Lower(file); f == "config" || "config." <= f
  }

  /** skeleton/ses/sec32_OPEN_PRE.c, OPEN_PRE. */
  method OpenPre(path: string) returns (rc: Rc)
    requires NulFree(path)
    ensures exists i :: IsLastSep(path, i)
    ensures forall i :: IsLastSep(path, i) ==>
              rc == if i == 0 then InvalidParameter
                    else if ':' !in path[i + 1..] && IsConfig(path[i + 1..]) then AccessDenied
                    else NoError
  {
    var i: nat := |path|;
    while At(path, i) != '\\' && At(path, i) != '/' && i > 0
      invariant 0 <= i <= |path|
      invariant forall k :: i < k < |path| ==> !Comp.IsSep(path[k])
      decreases i
    {
      i := i - 1;
    }
    assert IsLastSep(path, i);
    LastSepUnique(path, i);
    if i != 0 {
      var file := path[i + 1..];
      var verdict := Fnmatch("CONFIG.*", file, FNM_OS2 | FNM_IGNORECASE);
      ConfigMask(file, Decode(FNM_OS2 | FNM_IGNORECASE));
      rc := if verdict == 0 then AccessDenied else NoError;
    } else {
      rc := InvalidParameter;
    }
  }

  lemma LastSepUnique(path: string, i: nat)
    requires IsLastSep(path, i)
    ensures forall j :: IsLastSep(path, j) ==> j == i
  {
  }

  /** A mask component that begins with ordinary characters takes them off the name. */
  lemma {:induction false} LiteralPrefix(p: string, c: string, d: string, o: Options, hasDot: bool)
    requires forall i :: 0 <= i < |p| ==> p[i] !in "?*."
    requires !o.ignoreCase
    ensures Comp.Fits(p + c, d, o, hasDot) <==> p <= d && Comp.Fits(c, d[|p|..], o, hasDot)
  {
    if p == "" {
      assert p + c == c && d[0..] == d;
    } else {
      assert (p + c)[1..] == p[1..] + c;
      if d != "" {
        LiteralPrefix(p[1..], c, d[1..], o, hasDot);
        assert p <= d ==> d[1..][|p| - 1..] == d[|p|..];
        assert Comp.Covers(p[0], d, 1, o, hasDot) <==> p[0] == d[0];
        assert p == [p[0]] + p[1..] && d == [d[0]] + d[1..];
      }
    }
  }

  lemma DotStar(c: string, d: string, o: Options, hasDot: bool)
    requires o.style.Os2? && |c| == 2 && c[0] == '.' && c[1] == '*'
    ensures Comp.Fits(c, d, o, hasDot) <==> (d != "" && d[0] == '.') || (d == "" && !hasDot)
  {
    forall k | 0 <= k <= |d| ensures Comp.Fits(c[1..], d[k..], o, hasDot) {
      StarAll(c[1..], d[k..], o, hasDot);
    }
    if d != "" && d[0] == '.' { assert Comp.Covers(c[0], d, 1, o, hasDot); }
    if d == "" && !hasDot { assert Comp.Covers(c[0], d, 0, o, hasDot); }
  }

  lemma StarAll(c: string, d: string, o: Options, hasDot: bool)
    requires o.style.Os2? && |c| == 1 && c[0] == '*'
    ensures Comp.Fits(c, d, o, hasDot)
  {
    assert Comp.Covers(c[0], d, |d|, o, hasDot);
  }

  lemma WordDotStar(p: string, c: string, d: string, o: Options)
    requires o.style.Os2? && !o.ignoreCase && |c| == 2 && c[0] == '.' && c[1] == '*'
    requires forall i :: 0 <= i < |p| ==> p[i] !in "?*."
    ensures Comp.CompMatches(p + c, d, o) <==> d == p || p + "." <= d
  {
    Comp.FitsIffAlignment(p + c, d, o, '.' in d);
    LiteralPrefix(p, c, d, o, '.' in d);
    if p <= d {
      DotStar(c, d[|p|..], o, '.' in d);
      assert d == p + d[|p|..];
    }
  }

  /** `CONFIG.*` in OS/2 style, case ignored, is IsConfig on names without separators. */
  lemma ConfigMask(file: string, o: Options)
    requires o.style.Os2? && o.ignoreCase
    requires forall k :: 0 <= k < |file| ==> !Comp.IsSep(file[k])
    ensures Outcome("CONFIG.*", file, o) == Match <==> ':' !in file && IsConfig(file)
  {
    hide Outcome;
    var exact, low := o.(ignoreCase := false), Lower(file);
    assert Lower("CONFIG.*") == "config.*" == "config" + ".*" && "config" + "." == "config.";
    IgnoreCaseIsLowering("CONFIG.*", file, o);
    LowerKeeps(file, ':');
    if ':' in file {
      HasColon("config.*", low, exact);
    } else {
      OneComponent("config.*", low, exact);
      WordDotStar("config", ".*", low, exact);
    }
  }

  lemma HasColon(mask: string, name: string, o: Options)
    requires ':' in name && ':' !in mask
    ensures Outcome(mask, name, o) != Match
  {
  }
}
