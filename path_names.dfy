/** The parts of a file name that pathlib's PurePath.stem and PurePath.suffix return. */
module PathNames {

  /** Index of the last `c` in `s`, or -1 when there is none (str.rfind). */
  function RFind(s: string, c: char): (i: int)
    ensures -1 <= i < |s|
    ensures i >= 0 ==> s[i] == c
    ensures forall j :: i < j < |s| ==> s[j] != c
  {
    if s == [] then -1
    else if s[|s| - 1] == c then |s| - 1
    else RFind(s[..|s| - 1], c)
  }

  /** The extension, dot included: from the last dot on, unless that dot is the
      first or the last character of the name, in which case there is none. */
  function Suffix(name: string): (x: string)
    ensures x == "" || (2 <= |x| < |name| && x[0] == '.' && '.' !in x[1..])
    ensures x == name[|name| - |x|..]
  {
    var i := RFind(name, '.');
    if 0 < i < |name| - 1 then name[i..] else ""
  }

  /** The name without its extension. */
  function Stem(name: string): (s: string)
    ensures s + Suffix(name) == name
    ensures name != [] ==> s != []
  {
    var i := RFind(name, '.');
    if 0 < i < |name| - 1 then name[..i] else name
  }

  /** `s` with every dot removed (str.replace(".", "")). */
  function RemoveDots(s: string): (r: string)
    ensures '.' !in r
    ensures '.' !in s ==> r == s
  {
    if s == [] then []
    else (if s[0] == '.' then [] else [s[0]]) + RemoveDots(s[1..])
  }

  /** Removing the dots keeps every other character, as often as it occurs. */
  lemma {:induction false} RemoveDotsKeepsOthers(s: string)
    ensures multiset(RemoveDots(s)) == multiset(s)['.' := 0]
  {
    if s != [] {
      RemoveDotsKeepsOthers(s[1..]);
      assert s == [s[0]] + s[1..];
    }
  }

  /** Removing the dots works piece by piece: the characters that stay keep
      their order. */
  lemma {:induction false} RemoveDotsAppend(a: string, b: string)
    ensures RemoveDots(a + b) == RemoveDots(a) + RemoveDots(b)
  {
    if a == [] {
      assert a + b == b;
    } else {
      assert (a + b)[1..] == a[1..] + b;
      RemoveDotsAppend(a[1..], b);
    }
  }

  /** A name made of a non-empty stem, one dot and a dot-free non-empty extension
      splits at that dot. */
  lemma SplitAtLastDot(stem: string, ext: string)
    requires stem != [] && ext != [] && '.' !in ext
    ensures Stem(stem + "." + ext) == stem
    ensures Suffix(stem + "." + ext) == "." + ext
  {
    var name := stem + "." + ext;
    var i := RFind(name, '.');
    assert name[|stem|] == '.';
  }

  /** A name without a dot has no extension. */
  lemma DotlessHasNoSuffix(name: string)
    requires '.' !in name
    ensures Suffix(name) == "" && Stem(name) == name
  {
    var i := RFind(name, '.');
    assert i == -1;
  }

  /** Appending dot-free text does not move the last dot. */
  lemma {:induction false} RFindAppendDotless(s: string, t: string)
    requires '.' !in t
    ensures RFind(s + t, '.') == RFind(s, '.')
  {
    if t != [] {
      assert (s + t)[..|s + t| - 1] == s + t[..|t| - 1];
      RFindAppendDotless(s, t[..|t| - 1]);
    } else {
      assert s + t == s;
    }
  }

  /** Inserting dot-free text between the stem and the extension of a name that
      does not end in a dot keeps its extension, and the stem grows by that text. */
  lemma InsertionKeepsSuffix(name: string, text: string)
    requires name != [] && name[|name| - 1] != '.'
    requires '.' !in text
    ensures Suffix(Stem(name) + text + Suffix(name)) == Suffix(name)
    ensures Stem(Stem(name) + text + Suffix(name)) == Stem(name) + text
  {
    var stem, ext := Stem(name), Suffix(name);
    if ext != "" {
      assert ext == "." + ext[1..];
      assert stem + text + ext == (stem + text) + "." + ext[1..];
      SplitAtLastDot(stem + text, ext[1..]);
    } else {
      assert stem == name;
      RFindAppendDotless(name, text);
      assert stem + text + ext == name + text;
    }
  }

  /** A name that ends in a dot has no extension, so text inserted "before the
      extension" lands after that dot and becomes part of a new extension. */
  lemma InsertionAfterTrailingDot()
    ensures Suffix("a.") == "" && Stem("a.") == "a."
    ensures Suffix(Stem("a.") + "_SUF" + Suffix("a.")) == "._SUF"
  {
    assert RFind("a.", '.') == 1;
    assert Stem("a.") + "_SUF" + Suffix("a.") == "a._SUF";
    assert "a._SUF"[..5] == "a._SU";
    assert "a._SU"[..4] == "a._S";
    assert "a._S"[..3] == "a._";
    assert "a._"[..2] == "a.";
    assert RFind("a._SUF", '.') == 1;
  }
}
