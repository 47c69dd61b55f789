/** `fn_compatible` of src/penai/utils/io.py: a name made usable as a file or
    directory name by dropping every `/` and collapsing every run of
    whitespace into one space. */
module FileNames {
  import opened Chars

  /** `name.replace("/", "")`. */
  function RemoveSlashes(s: string): (r: string)
    ensures '/' !in r
    ensures |r| <= |s|
  {
    if |s| == 0 then []
    else (if s[0] == '/' then [] else [s[0]]) + RemoveSlashes(s[1..])
  }

  /** The slash removal keeps exactly the characters other than `/`. */
  lemma {:induction false} RemoveSlashesChars(s: string)
    ensures forall c :: c in RemoveSlashes(s) <==> c in s && c != '/'
  {
    if |s| > 0 {
      RemoveSlashesChars(s[1..]);
      assert s == [s[0]] + s[1..];
    }
  }

  /** `re.sub(r"\s+", " ", s)`: each maximal run of `\s` characters becomes a
      single space; every other character stays where it was. */
  function CollapseSpaces(s: string): (r: string)
    ensures |r| <= |s|
    ensures |s| == 0 <==> |r| == 0
    ensures |s| > 0 && IsSpace(s[0]) ==> r[0] == ' '
    ensures |s| > 0 && !IsSpace(s[0]) ==> r[0] == s[0]
    decreases |s|
  {
    if |s| == 0 then []
    else if IsSpace(s[0]) then [' '] + CollapseSpaces(DropSpaces(s))
    else [s[0]] + CollapseSpaces(s[1..])
  }

  /** Collapsing writes only plain spaces and characters of the original that
      are not whitespace. */
  lemma {:induction false} CollapseSpacesChars(s: string)
    ensures forall c :: c in CollapseSpaces(s) ==> c == ' ' || (c in s && !IsSpace(c))
    decreases |s|
  {
    if |s| > 0 {
      var t := if IsSpace(s[0]) then DropSpaces(s) else s[1..];
      CollapseSpacesChars(t);
      assert forall c :: c in t ==> c in s;
    }
  }

  /** `fn_compatible`. */
  function FnCompatible(name: string): (r: string)
    ensures '/' !in r
    ensures |r| <= |name|
  {
    CollapseSpacesChars(RemoveSlashes(name));
    CollapseSpaces(RemoveSlashes(name))
  }

  // ---------------------------------------------------------------------------
  // What the result looks like

  /** Every whitespace character is a plain space, and no two are adjacent. */
  predicate SpacesCollapsed(s: string) {
    && (forall i :: 0 <= i < |s| && IsSpace(s[i]) ==> s[i] == ' ')
    && (forall i :: 0 <= i < |s| - 1 ==> !(IsSpace(s[i]) && IsSpace(s[i + 1])))
  }

  /** The characters of `s` that are not whitespace, in order. */
  function Visible(s: string): (r: string)
    ensures |r| <= |s|
  {
    if |s| == 0 then []
    else (if IsSpace(s[0]) then [] else [s[0]]) + Visible(s[1..])
  }

  /** The number of maximal whitespace runs in `s`. */
  function Runs(s: string): nat
    decreases |s|
  {
    if |s| == 0 then 0
    else if IsSpace(s[0]) then 1 + Runs(DropSpaces(s))
    else Runs(s[1..])
  }

  /** The number of whitespace characters in `s`. */
  function SpaceCount(s: string): nat {
    if |s| == 0 then 0 else (if IsSpace(s[0]) then 1 else 0) + SpaceCount(s[1..])
  }

  /** A leading run of whitespace contributes nothing visible. */
  lemma {:induction false} VisibleDropSpaces(s: string)
    ensures Visible(DropSpaces(s)) == Visible(s)
    decreases |s|
  {
    if |s| > 0 && IsSpace(s[0]) {
      DropSpacesCons(s);
      VisibleDropSpaces(s[1..]);
    } else {
      DropNoSpaces(s);
    }
  }

  /** The collapsed string is already collapsed, keeps the visible characters
      in order, and holds one space per whitespace run of the original. */
  lemma {:induction false} CollapseSpacesShape(s: string)
    ensures SpacesCollapsed(CollapseSpaces(s))
    ensures Visible(CollapseSpaces(s)) == Visible(s)
    ensures SpaceCount(CollapseSpaces(s)) == Runs(s)
    decreases |s|
  {
    if |s| > 0 {
      var r := CollapseSpaces(s);
      if IsSpace(s[0]) {
        var t := DropSpaces(s);
        CollapseSpacesShape(t);
        VisibleDropSpaces(s);
        var rest := CollapseSpaces(t);
        assert r == [' '] + rest;
        assert r[1..] == rest;
        assert |rest| > 0 ==> !IsSpace(rest[0]);
        assert Visible(r) == Visible(rest);
      } else {
        CollapseSpacesShape(s[1..]);
        var rest := CollapseSpaces(s[1..]);
        assert r == [s[0]] + rest;
        assert r[1..] == rest;
      }
    }
  }

  /** A string that is already collapsed is left as it is. */
  lemma {:induction false} CollapseFixed(s: string)
    requires SpacesCollapsed(s)
    ensures CollapseSpaces(s) == s
    decreases |s|
  {
    if |s| > 0 {
      var t := s[1..];
      assert s == [s[0]] + t;
      assert forall i :: 0 <= i < |t| ==> t[i] == s[i + 1];
      assert SpacesCollapsed(t);
      CollapseFixed(t);
      if IsSpace(s[0]) {
        assert |t| == 0 || !IsSpace(t[0]);
        DropNoSpaces(t);
        DropSpacesCons(s);
        assert CollapseSpaces(s) == [' '] + t;
      } else {
        assert CollapseSpaces(s) == [s[0]] + t;
      }
    }
  }

  /** A string without `/` is left as it is by the slash removal. */
  lemma {:induction false} RemoveSlashesFixed(s: string)
    requires '/' !in s
    ensures RemoveSlashes(s) == s
  {
    if |s| > 0 {
      assert s == [s[0]] + s[1..];
      RemoveSlashesFixed(s[1..]);
    }
  }

  /** The characters of `s` that are neither `/` nor whitespace, in order. */
  function Kept(s: string): string {
    if |s| == 0 then []
    else (if s[0] == '/' || IsSpace(s[0]) then [] else [s[0]]) + Kept(s[1..])
  }

  lemma {:induction false} VisibleRemoveSlashes(s: string)
    ensures Visible(RemoveSlashes(s)) == Kept(s)
  {
    if |s| > 0 {
      VisibleRemoveSlashes(s[1..]);
      var head: string := if s[0] == '/' then [] else [s[0]];
      VisibleAppend(head, RemoveSlashes(s[1..]));
    }
  }

  lemma {:induction false} VisibleAppend(a: string, b: string)
    ensures Visible(a + b) == Visible(a) + Visible(b)
  {
    if |a| > 0 {
      assert (a + b)[1..] == a[1..] + b;
      VisibleAppend(a[1..], b);
    } else {
      assert a + b == b;
    }
  }

  /** The file name: no `/`, whitespace collapsed to single spaces, and the
      characters that are neither `/` nor whitespace kept in their order. */
  lemma FnCompatibleShape(name: string)
    ensures '/' !in FnCompatible(name)
    ensures SpacesCollapsed(FnCompatible(name))
    ensures Visible(FnCompatible(name)) == Kept(name)
    ensures SpaceCount(FnCompatible(name)) == Runs(RemoveSlashes(name))
  {
    CollapseSpacesShape(RemoveSlashes(name));
    VisibleRemoveSlashes(name);
  }

  /** Slashes are removed before whitespace is collapsed, so the whitespace on
      both sides of a slash becomes one space: "a / b" gives "a b". */
  lemma SlashBetweenSpaces(x: char, y: char)
    requires x != '/' && y != '/' && !IsSpace(x) && !IsSpace(y)
    ensures FnCompatible([x, ' ', '/', ' ', y]) == [x, ' ', y]
  {
    SlashDropped(x, y);
    SpacesMerged(x, y);
  }

  lemma SlashDropped(x: char, y: char)
    requires x != '/' && y != '/'
    ensures RemoveSlashes([x, ' ', '/', ' ', y]) == [x, ' ', ' ', y]
  {
    RemoveSlashesCons(y, []);
    RemoveSlashesCons(' ', [y]);
    RemoveSlashesCons('/', [' ', y]);
    RemoveSlashesCons(' ', ['/', ' ', y]);
    RemoveSlashesCons(x, [' ', '/', ' ', y]);
  }

  lemma RemoveSlashesCons(c: char, t: string)
    ensures RemoveSlashes([c] + t) == (if c == '/' then [] else [c]) + RemoveSlashes(t)
  {
    assert ([c] + t)[1..] == t;
  }

  lemma SpacesMerged(x: char, y: char)
    requires !IsSpace(x) && !IsSpace(y)
    ensures CollapseSpaces([x, ' ', ' ', y]) == [x, ' ', y]
  {
    assert IsSpace(' ');
    assert DropSpaces([' ', ' ', y]) == [y] by {
      DropNoSpaces([y]);
      assert [' ', y][1..] == [y];
      DropSpacesCons([' ', y]);
      assert [' ', ' ', y][1..] == [' ', y];
      DropSpacesCons([' ', ' ', y]);
    }
    assert CollapseSpaces([y]) == [y] by {
      assert [y][1..] == [];
    }
    assert CollapseSpaces([' ', ' ', y]) == [' ', y];
    assert [x, ' ', ' ', y][1..] == [' ', ' ', y];
  }

  /** Applying `fn_compatible` twice is applying it once. */
  lemma FnCompatibleIdempotent(name: string)
    ensures FnCompatible(FnCompatible(name)) == FnCompatible(name)
  {
    var r := FnCompatible(name);
    CollapseSpacesShape(RemoveSlashes(name));
    RemoveSlashesFixed(r);
    CollapseFixed(r);
  }
}
