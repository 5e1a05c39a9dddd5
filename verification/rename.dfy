/** The new-name rule of the `/upload` handler (index.js 157):
    `path.basename(file, path.extname(file)) + "." + extension`.
    Names come from a directory listing, so they never contain `/`; Node's
    `extname` and `basename` are modelled for such names. */
module Rename {

  import opened Seqs
  import opened Signature

  /** Index of the last occurrence of `c` in `s`, or -1 when there is none. */
  function LastIndexOf(s: string, c: char): (r: int)
    ensures -1 <= r < |s|
    ensures r >= 0 ==> s[r] == c
    ensures forall k :: r < k < |s| ==> s[k] != c
    ensures r == -1 <==> c !in s
  {
    if |s| == 0 then -1
    else if s[|s| - 1] == c then |s| - 1
    else LastIndexOf(s[..|s| - 1], c)
  }

  /** Node's `path.extname` on a name without `/`: the suffix from the last `.`,
      except that it is empty when there is no `.`, when the last `.` is the first
      character (a dot-file such as `.bashrc`), and for the name `..`. */
  function ExtName(name: string): (e: string)
    ensures EndsWith(name, e)
    ensures e != "" ==> e[0] == '.' && '.' !in e[1..] && |e| < |name|
    ensures e == "" <==>
              '.' !in name || (name[0] == '.' && '.' !in name[1..]) || name == ".."
  {
    var dot := LastIndexOf(name, '.');
    assert dot > 0 ==> name[dot] in name[1..] by {
      if dot > 0 {
        assert name[1..][dot - 1] == name[dot];
      }
    }
    if dot <= 0 || name == ".." then ""
    else
      assert forall k :: 1 <= k < |name[dot..]| ==> name[dot..][k] == name[dot + k];
      name[dot..]
  }

  /** Node's `path.basename(name, suffix)` on a name without `/`: the name with a
      non-empty `suffix` removed from its end, when it ends with it. */
  function BaseName(name: string, suffix: string): (b: string)
    ensures 0 < |suffix| && EndsWith(name, suffix) ==> b + suffix == name
    ensures !(0 < |suffix| && EndsWith(name, suffix)) ==> b == name
  {
    if 0 < |suffix| && EndsWith(name, suffix) then name[..|name| - |suffix|] else name
  }

  /** The name an attachment is copied under once its tag is known. */
  function NewName(name: string, tag: Tag): (r: string)
    ensures EndsWith(r, "." + Extension(tag))
  {
    BaseName(name, ExtName(name)) + "." + Extension(tag)
  }

  /** The part of the name that survives renaming: `basename(name, extname(name))`. */
  function Stem(name: string): string
  {
    BaseName(name, ExtName(name))
  }

  /** Renaming keeps the stem and replaces the extension: the name is its stem followed by
      its extension, and the new name is the same stem followed by `.` and the tag. */
  lemma NewNameReplacesExtension(name: string, tag: Tag)
    ensures Stem(name) + ExtName(name) == name
    ensures NewName(name, tag) == Stem(name) + "." + Extension(tag)
  {
  }

  /** A name without any `.` gets `.` and the tag appended. */
  lemma NewNameWithoutDot(name: string, tag: Tag)
    requires '.' !in name
    ensures NewName(name, tag) == name + "." + Extension(tag)
  {
  }

  /** A dot-file whose only `.` is its first character keeps that `.` and gets
      `.` and the tag appended. */
  lemma NewNameOfDotFile(name: string, tag: Tag)
    requires |name| > 0 && name[0] == '.' && '.' !in name[1..]
    ensures NewName(name, tag) == name + "." + Extension(tag)
  {
  }

  /** When the last `.` sits after the first character, everything from it on is
      replaced by `.` and the tag. */
  lemma NewNameOfDottedName(name: string, tag: Tag, dot: nat)
    requires 0 < dot < |name| && name[dot] == '.' && '.' !in name[dot + 1..]
    requires name != ".."
    ensures NewName(name, tag) == name[..dot] + "." + Extension(tag)
  {
    var last := LastIndexOf(name, '.');
    assert last == dot;
  }

  /** A non-empty name always has a non-empty stem. */
  lemma StemNonEmpty(name: string)
    requires name != ""
    ensures Stem(name) != ""
  {
  }

  /** Renaming an already renamed file only swaps the tag; in particular renaming
      with the same tag again changes nothing. */
  lemma RenameTwice(name: string, t: Tag, u: Tag)
    requires name != ""
    ensures NewName(NewName(name, t), u) == NewName(name, u)
  {
    hide NewName, ExtName;
    NewNameReplacesExtension(name, t);
    StemNonEmpty(name);
    var stem := Stem(name);
    var renamed := NewName(name, t);
    var ext := Extension(t);
    assert renamed == stem + "." + ext;
    assert renamed[|stem|] == '.';
    assert renamed[|stem| + 1..] == ext;
    assert renamed[..|stem|] == stem;
    NewNameOfDottedName(renamed, u, |stem|);
    NewNameReplacesExtension(name, u);
  }

  /** Two attachments get the same new name exactly when they have the same stem and
      the same tag; this is when one copy overwrites the other. */
  lemma {:induction false} NewNameCollision(a: string, t: Tag, b: string, u: Tag)
    ensures NewName(a, t) == NewName(b, u) <==> Stem(a) == Stem(b) && t == u
  {
    hide NewName, ExtName;
    NewNameReplacesExtension(a, t);
    NewNameReplacesExtension(b, u);
    var x, y := NewName(a, t), NewName(b, u);
    if x == y {
      assert |Stem(a)| == |Stem(b)|;
      assert Extension(t) == x[|x| - 3..] == y[|y| - 3..] == Extension(u);
      assert Stem(a) == x[..|Stem(a)|] == y[..|Stem(b)|] == Stem(b);
    }
  }

  /** Renaming is idempotent for a fixed tag. */
  lemma NewNameIdempotent(name: string, tag: Tag)
    requires name != ""
    ensures NewName(NewName(name, tag), tag) == NewName(name, tag)
  {
    RenameTwice(name, tag, tag);
  }

}
