/** Laws of whole paths, in characters: drives, colons, UNC names, separators and components. */
module FnmatchPathLaws {
  import opened CStrings
  import opened FnmatchFlags
  import opened FnmatchPaths
  import Comp = FnmatchOs2
  import Unix = FnmatchUnix

  // ---- Drives and colons ----

  predicate IsLetter(c: char) { 'A' <= c <= 'Z' || 'a' <= c <= 'z' }

  predicate StartsWithDrive(s: string) { |s| >= 2 && IsLetter(s[0]) && s[1] == ':' }

  /** The upper and the lower case of one letter. */
  predicate AreCases(c: char, d: char) {
    IsLetter(c) && IsLetter(d) && (c as int == d as int + 32 || d as int == c as int + 32)
  }

  /** A drive on one side only, or two drives that are not the same letter, up to case under
      _FNM_IGNORECASE, never match; the same drive on both sides leaves the outcome of the rest. Any
      other colon in the mask is an error, and else any other colon in the name no match. */
  lemma DriveLaw(mask: string, name: string, o: Options)
    ensures StartsWithDrive(mask) != StartsWithDrive(name) ==> Outcome(mask, name, o) == NoMatch
    ensures StartsWithDrive(mask) && StartsWithDrive(name) ==>
              if mask[0] != name[0] && !(o.ignoreCase && AreCases(mask[0], name[0])) then Outcome(mask, name, o) == NoMatch
              else if ':' in mask[2..] then Outcome(mask, name, o) == Error
              else if ':' in name[2..] then Outcome(mask, name, o) == NoMatch
              else Outcome(mask, name, o) == Outcome(mask[2..], name[2..], o)
    ensures !StartsWithDrive(mask) && !StartsWithDrive(name) ==>
              && (':' in mask ==> Outcome(mask, name, o) == Error)
              && (':' !in mask && ':' in name ==> Outcome(mask, name, o) == NoMatch)
  {
    hide Agree;
  }

  /** An unknown style is an error, unless nothing is left to compare. */
  lemma UnknownStyle(mask: string, name: string, o: Options)
    requires o.style.Unknown? && ':' !in mask && ':' !in name
    ensures Outcome(mask, name, o) == if mask == "" && (name == "" || o.pathPrefix) then Match else Error
  {
  }

  // ---- Separators and components ----

  predicate IsSlash(c: char) { c == '/' || c == '\\' }

  ghost predicate HasNoSlash(c: string) { forall k :: 0 <= k < |c| ==> !IsSlash(c[k]) }

  lemma {:induction false} EndOfFirst(c: string, i: nat, rest: string)
    requires HasNoSlash(c) && i <= |c| && (rest != "" ==> IsSlash(rest[0]))
    ensures Comp.CompEnd(c + rest, i) == |c|
    decreases |c| - i
  {
    if i < |c| { EndOfFirst(c, i + 1, rest); }
  }

  lemma FirstAndRest(c: string, a: char, s: string)
    requires HasNoSlash(c) && IsSlash(a)
    ensures Comp.CompEnd(c + [a] + s, 0) == |c| < |c + [a] + s|
    ensures (c + [a] + s)[..|c|] == c && Rest(c + [a] + s) == s
    ensures Comp.CompEnd(c, 0) == |c| && c[..|c|] == c && Rest(c) == ""
  {
    EndOfFirst(c, 0, [a] + s);
    EndOfFirst(c, 0, "");
    assert c + ([a] + s) == c + [a] + s && c + "" == c;
    hide Comp.CompEnd;
    assert (c + [a] + s)[|c| + 1..] == s;
  }

  /** Paths match component by component, whichever separators part the components: two paths that go
      on match when their first components do and the rests do. A mask may end first under
      _FNM_PATHPREFIX only, and a name if all that is left of the mask is its separator. */
  lemma PathsByComponents(c: string, a: char, mask: string, d: string, b: char, name: string, o: Options)
    requires HasNoSlash(c) && HasNoSlash(d) && IsSlash(a) && IsSlash(b)
    ensures PathMatches(c + [a] + mask, d + [b] + name, o) <==> Comp.CompMatches(c, d, o) && PathMatches(mask, name, o)
    ensures PathMatches(c, d + [b] + name, o) <==> o.pathPrefix && (c == "" || Comp.CompMatches(c, d, o))
    ensures PathMatches(c + [a] + mask, d, o) <==> o.pathPrefix && mask == "" && Comp.CompMatches(c, d, o)
    ensures PathMatches(c, d, o) <==> Comp.CompMatches(c, d, o) || (o.pathPrefix && c == "")
  {
    hide PathMatches, Comp.CompMatches, Comp.CompEnd, Rest;
    FirstAndRest(c, a, mask);
    FirstAndRest(d, b, name);
    PathStep(c + [a] + mask, d + [b] + name, o);
    PathStep(c + [a] + mask, d, o);
    EmptyPath(name, o);
    EmptyPath("", o);
    EmptyPath(d, o);
    EmptyPath(d + [b] + name, o);
    EmptyMatchesEmpty(d, o);
    if c != "" || !o.pathPrefix { PathStep(c, d + [b] + name, o); }
    if c != "" || (d != "" && !o.pathPrefix) { PathStep(c, d, o); }
  }

  lemma EmptyPath(name: string, o: Options)
    ensures PathMatches("", name, o) <==> name == "" || o.pathPrefix
  {
    hide PathMatches;
    if name == "" || o.pathPrefix {
      EmptyMask(name, o);
    } else {
      PathStep("", name, o);
      EmptyMatchesEmpty(name[..Comp.CompEnd(name, 0)], o);
    }
  }

  /** Backslashes turned into slashes. */
  function Slashes(s: string): (r: string)
    ensures |r| == |s| && forall i :: 0 <= i < |s| ==> r[i] == if s[i] == '\\' then '/' else s[i]
  {
    seq(|s|, i requires 0 <= i < |s| => if s[i] == '\\' then '/' else s[i])
  }

  lemma {:induction false} SlashEnd(s: string, i: nat)
    requires i <= |s|
    ensures Comp.CompEnd(Slashes(s), i) == Comp.CompEnd(s, i)
    decreases |s| - i
  {
    if i < |s| && !Comp.IsSep(s[i]) { SlashEnd(s, i + 1); }
  }

  lemma {:induction false} SlashSplit(s: string)
    ensures Split(Slashes(s)) == Split(s)
    decreases |s|
  {
    hide Comp.CompEnd;
    SlashEnd(s, 0);
    var e := Comp.CompEnd(s, 0);
    assert Slashes(s)[..e] == s[..e];
    if e < |s| {
      assert Slashes(s)[e + 1..] == Slashes(s[e + 1..]);
      SlashSplit(s[e + 1..]);
    } else {
      assert Slashes(s) == s;
    }
  }

  lemma SlashesAgree(mask: string, name: string, o: Options)
    requires o.style.Os2? || o.style.Dos?
    ensures Agree(Slashes(mask), Slashes(name), o) <==> Agree(mask, name, o)
  {
    hide Split;
    SlashSplit(mask);
    SlashSplit(name);
    if IsUnc(mask) && IsUnc(name) {
      SlashSplit(mask[2..]);
      SlashSplit(name[2..]);
      assert Slashes(mask)[2..] == Slashes(mask[2..]) && Slashes(name)[2..] == Slashes(name[2..]);
    }
  }

  lemma SlashDrive(s: string)
    ensures HasDrive(Slashes(s)) == HasDrive(s) && AfterDrive(Slashes(s)) == Slashes(AfterDrive(s))
    ensures ':' in Slashes(AfterDrive(s)) <==> ':' in AfterDrive(s)
  {
    var t := AfterDrive(s);
    assert forall i :: 0 <= i < |t| ==> (Slashes(t)[i] == ':' <==> t[i] == ':');
    if ':' in t {
      var i :| 0 <= i < |t| && t[i] == ':';
      assert Slashes(t)[i] == ':';
    }
  }

  /** In OS/2 and DOS style the two separators are one: turning every backslash of mask and name into a
      slash changes no outcome. */
  lemma SeparatorsAreAlike(mask: string, name: string, o: Options)
    requires o.style.Os2? || o.style.Dos?
    ensures Outcome(Slashes(mask), Slashes(name), o) == Outcome(mask, name, o)
  {
    hide Agree, AfterDrive, Slashes;
    SlashDrive(mask);
    SlashDrive(name);
    SlashesAgree(AfterDrive(mask), AfterDrive(name), o);
    FirstChars(mask);
    FirstChars(name);
  }

  lemma FirstChars(s: string)
    ensures HasDrive(s) ==> s != "" && Slashes(s) != "" && Slashes(s)[0] == s[0]
  {
  }

  // ---- UNC names ----

  predicate StartsWithTwoSlashes(s: string) { |s| >= 2 && IsSlash(s[0]) && IsSlash(s[1]) }

  lemma TwoSlashes(mask: string, name: string, o: Options)
    requires StartsWithTwoSlashes(mask) && StartsWithTwoSlashes(name)
    ensures PathMatches(mask, name, o) <==> PathMatches(mask[2..], name[2..], o)
  {
    hide PathMatches, Comp.CompMatches;
    EmptyMatchesEmpty("", o);
    var m, n := mask[1..], name[1..];
    PathsByComponents("", mask[0], m, "", name[0], n, o);
    PathsByComponents("", mask[1], mask[2..], "", name[1], name[2..], o);
    assert "" + [mask[0]] + m == mask && "" + [name[0]] + n == name;
    assert "" + [mask[1]] + mask[2..] == m && "" + [name[1]] + name[2..] == n;
  }

  /** In OS/2 and DOS style a name that begins with two separators is matched like any other path, but
      only by masks that begin with two separators. */
  lemma UncLaw(mask: string, name: string, o: Options)
    requires (o.style.Os2? || o.style.Dos?) && ':' !in mask && ':' !in name
    ensures Outcome(mask, name, o) == Match
       <==> PathMatches(mask, name, o) && (StartsWithTwoSlashes(name) ==> StartsWithTwoSlashes(mask))
  {
    hide PathMatches;
    if StartsWithTwoSlashes(mask) && StartsWithTwoSlashes(name) { TwoSlashes(mask, name, o); }
  }

  /** In Unix style two slashes that begin a name are taken by two that begin the mask, each with a
      backslash before it or without, and the rests match. */
  lemma UnixUncLaw(mask: string, name: string, o: Options)
    requires o.style.Posix? && ':' !in mask && ':' !in name
    ensures "//" <= name ==>
              (Outcome(mask, name, o) == Match
               <==> ("//" <= mask && Unix.Matches(mask[2..], name[2..], o))
                    || ("\\//" <= mask && Unix.Matches(mask[3..], name[2..], o))
                    || ("/\\/" <= mask && Unix.Matches(mask[3..], name[2..], o))
                    || ("\\/\\/" <= mask && Unix.Matches(mask[4..], name[2..], o)))
    ensures !("//" <= name) ==> (Outcome(mask, name, o) == Match <==> Unix.Matches(mask, name, o))
  {
    hide Unix.Matches;
  }

  // ---- The flag word and the return codes ----

  /** The bits of the header, one by one. */
  lemma FlagWord(flags: bv32)
    ensures var o := Decode(flags);
      && o.style == (match flags & 0xf case 0 => Posix case 1 => Os2 case 2 => Dos case _ => Unknown)
      && (o.noEscape <==> flags & 0x10 != 0) && (o.pathName <==> flags & 0x20 != 0) && (o.period <==> flags & 0x40 != 0)
      && (o.ignoreCase <==> flags & 0x80 != 0) && (o.pathPrefix <==> flags & 0x100 != 0)
    ensures Match.Code() == 0 && NoMatch.Code() == 1 && Error.Code() == 2
  {
  }
}
