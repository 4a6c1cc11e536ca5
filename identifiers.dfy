/**
 * Symbol names and relative paths: `to_c_identifier` and the separator
 * normalisation applied to every relative path (folder_to_carray.py).
 */
module Identifiers {

  /** One `str.replace(from, to)` with single-character arguments. */
  function ReplaceChar(s: string, from: char, to: char): (r: string)
    ensures |r| == |s|
  {
    if s == [] then [] else [if s[0] == from then to else s[0]] + ReplaceChar(s[1..], from, to)
  }

  /** Every occurrence of `from` becomes `to`; every other character stays where it was. */
  lemma {:induction false} ReplaceCharAt(s: string, from: char, to: char, i: nat)
    requires i < |s|
    ensures ReplaceChar(s, from, to)[i] == if s[i] == from then to else s[i]
  {
    if i > 0 {
      ReplaceCharAt(s[1..], from, to, i - 1);
    }
  }

  /** The characters `to_c_identifier` rewrites to an underscore. */
  predicate IsReplaced(c: char) {
    c == '/' || c == '\\' || c == '-' || c == '.'
  }

  /** The symbol name of a relative path: the four chained `replace` calls of `to_c_identifier`, in their order. */
  function ToCIdentifier(path: string): (id: string)
    ensures |id| == |path|
  {
    ReplaceChar(ReplaceChar(ReplaceChar(ReplaceChar(path, '/', '_'), '\\', '_'), '-', '_'), '.', '_')
  }

  /**
   * Character by character: the four replaced characters become `_`, every
   * other character is kept, so the symbol holds none of the four.
   */
  lemma ToCIdentifierAt(path: string, i: nat)
    requires i < |path|
    ensures ToCIdentifier(path)[i] == if IsReplaced(path[i]) then '_' else path[i]
    ensures !IsReplaced(ToCIdentifier(path)[i])
  {
    var s1 := ReplaceChar(path, '/', '_');
    var s2 := ReplaceChar(s1, '\\', '_');
    var s3 := ReplaceChar(s2, '-', '_');
    ReplaceCharAt(path, '/', '_', i);
    ReplaceCharAt(s1, '\\', '_', i);
    ReplaceCharAt(s2, '-', '_', i);
    ReplaceCharAt(s3, '.', '_', i);
  }

  lemma ToCIdentifierChars(path: string)
    ensures forall i :: 0 <= i < |path| ==> ToCIdentifier(path)[i] == if IsReplaced(path[i]) then '_' else path[i]
    ensures forall i :: 0 <= i < |path| ==> !IsReplaced(ToCIdentifier(path)[i])
  {
    forall i | 0 <= i < |path|
      ensures ToCIdentifier(path)[i] == if IsReplaced(path[i]) then '_' else path[i]
      ensures !IsReplaced(ToCIdentifier(path)[i])
    {
      ToCIdentifierAt(path, i);
    }
  }

  /** A relative path with every backslash turned into a forward slash. */
  function NormalizeSeparators(path: string): (p: string)
    ensures |p| == |path|
  {
    ReplaceChar(path, '\\', '/')
  }

  /** Normalised paths hold no backslash; every other character is unchanged. */
  lemma NormalizeSeparatorsChars(path: string)
    ensures forall i :: 0 <= i < |path| ==> NormalizeSeparators(path)[i] != '\\'
    ensures forall i :: 0 <= i < |path| && path[i] != '\\' ==> NormalizeSeparators(path)[i] == path[i]
    ensures forall i :: 0 <= i < |path| && path[i] == '\\' ==> NormalizeSeparators(path)[i] == '/'
  {
    forall i | 0 <= i < |path| {
      ReplaceCharAt(path, '\\', '/', i);
    }
  }

  /** Sanitising twice is sanitising once. */
  lemma ToCIdentifierIdempotent(path: string)
    ensures ToCIdentifier(ToCIdentifier(path)) == ToCIdentifier(path)
  {
    var once := ToCIdentifier(path);
    ToCIdentifierChars(path);
    ToCIdentifierChars(once);
    assert forall i :: 0 <= i < |once| ==> ToCIdentifier(once)[i] == once[i];
  }

  /** A path is its own symbol name exactly when it holds none of the replaced characters. */
  lemma ToCIdentifierFixedPoint(path: string)
    ensures ToCIdentifier(path) == path <==> forall i :: 0 <= i < |path| ==> !IsReplaced(path[i])
  {
    ToCIdentifierChars(path);
    if forall i :: 0 <= i < |path| ==> !IsReplaced(path[i]) {
      assert forall i :: 0 <= i < |path| ==> ToCIdentifier(path)[i] == path[i];
    }
  }

  /** Normalising the separators first does not change the symbol name, since both separators become `_`. */
  lemma ToCIdentifierIgnoresNormalization(path: string)
    ensures ToCIdentifier(NormalizeSeparators(path)) == ToCIdentifier(path)
  {
    var n := NormalizeSeparators(path);
    NormalizeSeparatorsChars(path);
    ToCIdentifierChars(path);
    ToCIdentifierChars(n);
    assert forall i :: 0 <= i < |path| ==> ToCIdentifier(n)[i] == ToCIdentifier(path)[i];
  }

  /** Distinct paths may collapse to one symbol name: nothing detects the collision. */
  lemma SymbolCollision()
    ensures ToCIdentifier("a-b") == ToCIdentifier("a.b") == "a_b"
  {
    ToCIdentifierChars("a-b");
    ToCIdentifierChars("a.b");
    var s, t := ToCIdentifier("a-b"), ToCIdentifier("a.b");
    assert s[0] == 'a' && s[1] == '_' && s[2] == 'b';
    assert t[0] == 'a' && t[1] == '_' && t[2] == 'b';
  }

  /** What C accepts as an identifier: a letter or `_` first, then letters, digits and `_`. */
  predicate IsCIdentifier(s: string) {
    |s| > 0 && !('0' <= s[0] <= '9') &&
    forall i :: 0 <= i < |s| ==> ('a' <= s[i] <= 'z' || 'A' <= s[i] <= 'Z' || '0' <= s[i] <= '9' || s[i] == '_')
  }

  /** The result is not always a valid C identifier: a leading digit is kept. */
  lemma LeadingDigitKept()
    ensures ToCIdentifier("1.c") == "1_c" && !IsCIdentifier(ToCIdentifier("1.c"))
  {
    ToCIdentifierAt("1.c", 0);
    ToCIdentifierAt("1.c", 1);
    ToCIdentifierAt("1.c", 2);
  }

  /** Nor is any character other than the four replaced ones rewritten, a space for one. */
  lemma SpaceKept()
    ensures ToCIdentifier("a b") == "a b" && !IsCIdentifier(ToCIdentifier("a b"))
  {
    ToCIdentifierAt("a b", 0);
    ToCIdentifierAt("a b", 1);
    ToCIdentifierAt("a b", 2);
    assert ToCIdentifier("a b")[1] == ' ';
  }
}
