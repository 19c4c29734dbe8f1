/** `hasClass`, `addClass`, `delClass` and `toggleClass`: edits of an
    element's `className`, a string of class names separated by spaces. The
    helpers assign the new string to the element; here each returns it with
    the success flag the JavaScript function returns. */
module ClassList {
  import opened Js

  /** A string with one space on each side, so that a class name can be
      looked for as a whole word. */
  function Padded(s: string): string
  {
    " " + s + " "
  }

  /** `hasClass`: `clazz`, with a space on each side, occurs in the class
      string with a space on each side. */
  predicate HasClass(className: string, clazz: string)
  {
    IndexOf(Padded(className), Padded(clazz)) != -1
  }

  /** A new `className` and whether the helper reports having made the edit. */
  datatype Edit = Edit(done: bool, className: string)

  /** `addClass`. `noThisClass` is a caller's promise that the class is
      absent, which skips the test. */
  function AddClass(className: string, clazz: string, noThisClass: bool): Edit
  {
    if noThisClass || !HasClass(className, clazz) then
      var curClass := Trim(className);
      Edit(true, if curClass != "" then curClass + " " + clazz else clazz)
    else
      Edit(false, className)
  }

  /** `delClass`: the first ` clazz ` of the padded string becomes one space,
      then the result is trimmed. `hasThisClass` skips the test. */
  function DelClass(className: string, clazz: string, hasThisClass: bool): Edit
  {
    if hasThisClass || HasClass(className, clazz) then
      Edit(true, Trim(Replace(Padded(className), Padded(clazz), " ")))
    else
      Edit(false, className)
  }

  /** `toggleClass`: delete the class when present, add it when absent. */
  function ToggleClass(className: string, clazz: string): Edit
  {
    if HasClass(className, clazz) then DelClass(className, clazz, true)
    else AddClass(className, clazz, true)
  }

  /** `className.split(' ')`: the pieces between single spaces, empty pieces
      included. */
  function Split(s: string): (parts: seq<string>)
    decreases |s|
  {
    IndexOfBounds(s, " ");
    var i := IndexOf(s, " ");
    if i < 0 then [s] else [s[..i]] + Split(s[i + 1..])
  }

  /** The piece of `s` before its first space, or all of `s` without one. */
  function FirstPiece(s: string): string
  {
    IndexOfBounds(s, " ");
    var i := IndexOf(s, " ");
    if i < 0 then s else s[..i]
  }

  // ---------------------------------------------------------------------
  // Properties

  lemma HasClassOccurs(className: string, clazz: string, p: int)
    requires OccursAt(Padded(className), Padded(clazz), p)
    ensures HasClass(className, clazz)
  {
    IndexOfSpec(Padded(className), Padded(clazz));
  }

  /** Where ` c ` can occur in the padded `s`: at position 0 exactly when `c`
      is the first piece of `s`, and otherwise after the first space of `s`. */
  lemma FirstWord(s: string, c: string, p: int)
    requires ' ' !in c
    requires OccursAt(Padded(s), Padded(c), p)
    ensures p == 0 ==> c == FirstPiece(s)
    ensures var i := IndexOf(s, " ");
      p != 0 ==> 0 <= i && p >= i + 1
  {
    var h := Padded(s);
    IndexOfSpec(s, " ");
    var i := IndexOf(s, " ");
    var e := if i < 0 then |s| else i;
    var first := if i < 0 then s else s[..i];
    forall j | 0 <= j < e ensures s[j] != ' ' {
      if s[j] == ' ' {
        assert OccursAt(s, " ", j);
      }
    }
    assert h[e + 1] == ' ' by {
      if i >= 0 {
        assert OccursAt(s, " ", i);
        assert s[i..i + 1] == " ";
        assert h[i + 1] == s[i];
      }
    }
    forall j | 1 <= j <= e ensures h[j] != ' ' {
      assert h[j] == s[j - 1];
    }
    var pc := Padded(c);
    assert h[p..p + |pc|] == pc;
    assert h[p] == ' ' by { assert pc[0] == ' '; }
    assert h[p + |c| + 1] == ' ' by { assert pc[|c| + 1] == ' '; }
    forall j | p + 1 <= j <= p + |c| ensures h[j] != ' ' {
      assert h[j] == pc[j - p] == c[j - p - 1];
    }
    if p == 0 {
      assert |c| == e;
      forall j | 0 <= j < |c| ensures c[j] == first[j] {
        assert c[j] == pc[j + 1] == h[j + 1] == s[j];
      }
    }
  }

  /** Direction one of `HasClassIffWord`. */
  lemma {:induction false} HasClassIsWord(className: string, clazz: string)
    requires ' ' !in clazz
    requires HasClass(className, clazz)
    ensures clazz in Split(className)
    decreases |className|
  {
    var s := className;
    var c := clazz;
    var i := IndexOf(s, " ");
    IndexOfSpec(s, " ");
    IndexOfSpec(Padded(s), Padded(c));
    var p := IndexOf(Padded(s), Padded(c));
    FirstWord(s, c, p);
    if p != 0 {
      FoundInRest(s, c, i, p);
      HasClassIsWord(s[i + 1..], c);
    }
  }

  /** A match of ` c ` after the first space of `s` is a match in the rest. */
  lemma FoundInRest(s: string, c: string, i: int, p: int)
    requires i == IndexOf(s, " ") && 0 <= i && i + 1 <= p
    requires OccursAt(Padded(s), Padded(c), p)
    ensures HasClass(s[i + 1..], c)
  {
    IndexOfSpec(s, " ");
    var t := s[i + 1..];
    var q := p - (i + 1);
    assert OccursAt(s, " ", i);
    assert s[i] == s[i..i + 1][0];
    PaddedCut(s, i);
    assert Padded(t)[q..q + |Padded(c)|] == Padded(s)[p..p + |Padded(c)|];
    HasClassOccurs(t, c, q);
  }

  /** Cutting the padded string at a space: the padded first piece, then the
      rest, and the rest is itself padded from the cut on. */
  lemma PaddedCut(s: string, i: nat)
    requires i < |s| && s[i] == ' '
    ensures Padded(s) == Padded(s[..i]) + (s[i + 1..] + " ")
    ensures Padded(s)[i + 1..] == Padded(s[i + 1..])
  {
    assert s == s[..i] + " " + s[i + 1..];
  }

  /** Direction two of `HasClassIffWord`. */
  lemma {:induction false} WordIsClass(className: string, clazz: string)
    requires clazz in Split(className)
    ensures HasClass(className, clazz)
    decreases |className|
  {
    var s := className;
    var c := clazz;
    IndexOfSpec(s, " ");
    var i := IndexOf(s, " ");
    if i < 0 {
      HasClassOccurs(s, c, 0);
    } else {
      assert OccursAt(s, " ", i);
      assert s[i] == s[i..i + 1][0];
      PaddedCut(s, i);
      if c == s[..i] {
        assert Padded(s)[..|Padded(c)|] == Padded(c);
        HasClassOccurs(s, c, 0);
      } else {
        var t := s[i + 1..];
        WordIsClass(t, c);
        IndexOfSpec(Padded(t), Padded(c));
        var p := IndexOf(Padded(t), Padded(c));
        OccursInside(Padded(s), i + 1, Padded(t), Padded(c), p);
        HasClassOccurs(s, c, i + 1 + p);
      }
    }
  }

  /** A string without spaces has no space to find. */
  lemma NoSpaceNoIndex(s: string)
    requires ' ' !in s
    ensures IndexOf(s, " ") == -1
  {
    forall p ensures !OccursAt(s, " ", p) {
      if 0 <= p < |s| {
        assert s[p] != ' ';
        assert s[p..p + 1][0] == s[p];
      }
    }
    IndexOfSpec(s, " ");
  }

  /** `hasClass` matches whole words only: for a class name without spaces,
      it holds exactly when the name is one of the space-separated pieces of
      the class string. */
  lemma HasClassIffWord(className: string, clazz: string)
    requires ' ' !in clazz
    ensures HasClass(className, clazz) <==> clazz in Split(className)
  {
    if HasClass(className, clazz) {
      HasClassIsWord(className, clazz);
    }
    if clazz in Split(className) {
      WordIsClass(className, clazz);
    }
  }

  /** A class string without spaces holds only itself: a class name that is
      part of it but not all of it is not found (`hello` inside `helloworld`,
      the case the source's comment names). */
  lemma NotInsideWord(className: string, clazz: string)
    requires ' ' !in className && ' ' !in clazz
    requires clazz != className
    ensures !HasClass(className, clazz)
  {
    NoSpaceNoIndex(className);
    assert Split(className) == [className];
    HasClassIffWord(className, clazz);
  }

  /** A class name between two spaces is found, whatever surrounds it. */
  lemma FoundAsWord(before: string, clazz: string, after: string)
    ensures HasClass(before + " " + clazz + " " + after, clazz)
  {
    var s := before + " " + clazz + " " + after;
    var p := |before| + 1;
    assert Padded(s)[p..p + |clazz| + 2] == Padded(clazz);
    HasClassOccurs(s, clazz, p);
  }

  /** A piece of `s` with a space or an end of `s` on each side is, padded,
      a piece of the padded `s`. */
  lemma PaddedInfix(s: string, a: nat, t: string)
    requires a + |t| <= |s| && s[a..a + |t|] == t
    requires a == 0 || s[a - 1] == ' '
    requires a + |t| == |s| || s[a + |t|] == ' '
    ensures Padded(s)[a..a + |t| + 2] == Padded(t)
  {
    var h := Padded(s);
    assert h[a] == ' ' by {
      if a > 0 { assert h[a] == s[a - 1]; }
    }
    assert h[a + |t| + 1] == ' ' by {
      if a + |t| < |s| { assert h[a + |t| + 1] == s[a + |t|]; }
    }
    forall j | 1 <= j <= |t| ensures h[a + j] == Padded(t)[j] {
      assert h[a + j] == s[a + j - 1] == t[j - 1];
    }
  }

  /** Whatever occurs in the trimmed class string occurs in the string. */
  lemma HasClassTrim(className: string, clazz: string)
    requires HasClass(Trim(className), clazz)
    ensures HasClass(className, clazz)
  {
    var t := Trim(className);
    var a := PaddedTrimInside(className);
    IndexOfSpec(Padded(t), Padded(clazz));
    var p := IndexOf(Padded(t), Padded(clazz));
    OccursInside(Padded(className), a, Padded(t), Padded(clazz), p);
    HasClassOccurs(className, clazz, a + p);
  }

  /** The padded trimmed string is a piece of the padded string. */
  lemma PaddedTrimInside(s: string) returns (a: nat)
    ensures a + |Trim(s)| + 2 <= |Padded(s)|
    ensures Padded(s)[a..a + |Trim(s)| + 2] == Padded(Trim(s))
  {
    a := TrimIsInfix(s);
    PaddedInfix(s, a, Trim(s));
  }

  /** The last word of `t + " " + c`, padded, sits after `t`. */
  lemma LastWordOccurs(t: string, c: string)
    ensures OccursAt(Padded(t + " " + c), Padded(c), |t| + 1)
  {
    var h := Padded(t + " " + c);
    assert h == (" " + t) + Padded(c);
    assert h[|t| + 1..] == Padded(c);
  }

  /** `addClass` on a string without the class appends it to the trimmed
      string (or makes it the whole string) and reports success; after it,
      `hasClass` holds. With the class present it reports failure and
      leaves the string alone. */
  lemma AddClassEffect(className: string, clazz: string)
    ensures var e := AddClass(className, clazz, false);
      && (!HasClass(className, clazz) ==>
            && e.done
            && e.className == (if Trim(className) == "" then clazz else Trim(className) + " " + clazz)
            && HasClass(e.className, clazz))
      && (HasClass(className, clazz) ==> e == Edit(false, className))
  {
    var e := AddClass(className, clazz, false);
    if !HasClass(className, clazz) {
      var t := Trim(className);
      var h := Padded(e.className);
      if t == "" {
        HasClassOccurs(e.className, clazz, 0);
      } else {
        LastWordOccurs(t, clazz);
        HasClassOccurs(e.className, clazz, |t| + 1);
      }
    }
  }

  /** `delClass` on a string without the class reports failure and leaves
      the string alone. */
  lemma DelClassAbsent(className: string, clazz: string)
    requires !HasClass(className, clazz)
    ensures DelClass(className, clazz, false) == Edit(false, className)
  {
  }

  /** An occurrence that ends inside a prefix is an occurrence in the prefix. */
  lemma OccursInPrefix<T>(h: seq<T>, n: seq<T>, p: int, m: nat)
    requires OccursAt(h, n, p) && p + |n| <= m <= |h|
    ensures OccursAt(h[..m], n, p)
  {
    assert h[..m][p..p + |n|] == h[p..p + |n|];
  }

  /** ` c `, for `c` without spaces, cannot straddle a space at `q` after
      its start. */
  lemma NoStraddle(h: string, c: string, p: int, q: int)
    requires ' ' !in c
    requires OccursAt(h, Padded(c), p) && p < q < |h| && h[q] == ' '
    ensures p + |c| + 2 <= q + 1
  {
    var pc := Padded(c);
    forall j | p + 1 <= j <= p + |c| ensures h[j] != ' ' {
      assert h[j] == h[p..p + |pc|][j - p] == pc[j - p] == c[j - p - 1];
    }
  }

  /** In `t + " " + c` with `t` free of the word `c`, the first ` c ` is the
      last word. */
  lemma LastWordFirstOccurrence(t: string, c: string)
    requires t != "" && ' ' !in c
    requires !HasClass(t, c)
    ensures IndexOf(Padded(t + " " + c), Padded(c)) == |t| + 1
  {
    var h := Padded(t + " " + c);
    var pc := Padded(c);
    var q := |t| + 1;
    assert h == (" " + t) + pc;
    assert h == Padded(t) + (c + " ");
    assert OccursAt(h, pc, q);
    IndexOfSpec(h, pc);
    var p := IndexOf(h, pc);
    if p < q {
      assert h[q] == ' ';
      NoStraddle(h, c, p, q);
      OccursInPrefix(h, pc, p, |t| + 2);
      HasClassOccurs(t, c, p);
    }
  }

  /** Adding a class that is absent and deleting it again gives the trimmed
      original string. */
  lemma DelClassUndoesAddClass(className: string, clazz: string)
    requires clazz != "" && ' ' !in clazz
    requires !HasClass(className, clazz)
    ensures var added := AddClass(className, clazz, false);
      && added.done
      && DelClass(added.className, clazz, false) == Edit(true, Trim(className))
  {
    AddClassEffect(className, clazz);
    var added := AddClass(className, clazz, false);
    var t := Trim(className);
    var h := Padded(added.className);
    if t == "" {
      assert IndexOf(h, Padded(clazz)) == 0 by {
        assert OccursAt(h, Padded(clazz), 0);
        IndexOfSpec(h, Padded(clazz));
      }
      assert Replace(h, Padded(clazz), " ") == " ";
      TrimPadded("");
      assert Padded("") == "  ";
      assert Trim(" ") == "" by {
        assert " "[1..] == [];
      }
    } else {
      assert !HasClass(t, clazz) by {
        if HasClass(t, clazz) { HasClassTrim(className, clazz); }
      }
      LastWordFirstOccurrence(t, clazz);
      assert Replace(h, Padded(clazz), " ") == Padded(t) by {
        assert h[..|t| + 1] == " " + t;
        assert h[|t| + 1 + |Padded(clazz)|..] == [];
      }
      TrimPadded(t);
    }
  }

  /** Showing then hiding: on a trimmed, non-empty class string without the
      class, `toggleClass` appends it and `delClass` then gives back the
      string. */
  lemma AddThenDelete(className: string, clazz: string)
    requires Trimmed(className) && className != ""
    requires clazz != "" && ' ' !in clazz
    requires !HasClass(className, clazz)
    ensures ToggleClass(className, clazz).className == className + " " + clazz
    ensures DelClass(className + " " + clazz, clazz, false) == Edit(true, className)
  {
    TrimTrimmed(className);
    AddClassEffect(className, clazz);
    DelClassUndoesAddClass(className, clazz);
  }

  /** Toggling an absent class twice gives the trimmed original string, and
      the first toggle makes `hasClass` true. */
  lemma ToggleTwice(className: string, clazz: string)
    requires clazz != "" && ' ' !in clazz
    requires !HasClass(className, clazz)
    ensures HasClass(ToggleClass(className, clazz).className, clazz)
    ensures ToggleClass(ToggleClass(className, clazz).className, clazz).className == Trim(className)
  {
    AddClassEffect(className, clazz);
    DelClassUndoesAddClass(className, clazz);
  }

  /** `delClass` removes only the first occurrence: from `c c` it leaves
      one `c`, which `hasClass` still finds. */
  lemma DelClassFirstOnly(clazz: string)
    requires clazz != "" && ' ' !in clazz
    ensures HasClass(clazz + " " + clazz, clazz)
    ensures DelClass(clazz + " " + clazz, clazz, false) == Edit(true, clazz)
    ensures HasClass(DelClass(clazz + " " + clazz, clazz, false).className, clazz)
  {
    var h := Padded(clazz + " " + clazz);
    var pc := Padded(clazz);
    assert h[..|pc|] == pc;
    assert OccursAt(h, pc, 0);
    HasClassOccurs(clazz + " " + clazz, clazz, 0);
    IndexOfSpec(h, pc);
    assert Replace(h, pc, " ") == pc by {
      assert h[|pc|..] == clazz + " ";
    }
    assert clazz[0] != ' ' && clazz[|clazz| - 1] != ' ';
    TrimPadded(clazz);
    HasClassOccurs(clazz, clazz, 0);
  }
}
