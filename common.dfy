/** Small helpers shared by both enrichers: an Option type standing for .NET's
    null, and the two string tests the enrichers rely on, OrdinalIgnoreCase
    comparison and string.IsNullOrWhiteSpace. */
module Common {

  /** A value or nothing: the model of a reference that may be null. */
  datatype Option<+T> = None | Some(value: T)
  {
    /** `x ?? default` */
    function GetOr(default: T): T
    {
      match this
      case Some(v) => v
      case None => default
    }
  }

  /** Case folding used for OrdinalIgnoreCase comparisons, restricted to ASCII:
      an upper-case letter maps to its lower-case letter, everything else to itself. */
  function FoldChar(c: char): char
  {
    if 'A' <= c <= 'Z' then (c as int + 32) as char else c
  }

  function Fold(s: string): string
  {
    seq(|s|, i requires 0 <= i < |s| => FoldChar(s[i]))
  }

  /** string.Equals(a, b, StringComparison.OrdinalIgnoreCase) */
  predicate EqualsIgnoreCase(a: string, b: string)
  {
    Fold(a) == Fold(b)
  }

  /** s.StartsWith(prefix, StringComparison.OrdinalIgnoreCase) */
  predicate StartsWithIgnoreCase(s: string, prefix: string)
    ensures StartsWithIgnoreCase(s, prefix) ==> |prefix| <= |s|
    ensures prefix == [] ==> StartsWithIgnoreCase(s, prefix)
    ensures |prefix| <= |s| && s[..|prefix|] == prefix ==> StartsWithIgnoreCase(s, prefix)
  {
    |prefix| <= |s| && EqualsIgnoreCase(s[..|prefix|], prefix)
  }

  /** Contains on a hash set built with StringComparer.OrdinalIgnoreCase. */
  predicate ContainsIgnoreCase(names: set<string>, name: string)
    ensures name in names ==> ContainsIgnoreCase(names, name)
    ensures names == {} ==> !ContainsIgnoreCase(names, name)
  {
    exists n :: n in names && EqualsIgnoreCase(n, name)
  }

  /** The white-space characters of char.IsWhiteSpace in the Latin-1 range. */
  predicate IsWhiteSpaceChar(c: char)
  {
    c == ' ' || '\t' <= c <= '\r' || c == '\U{85}' || c == '\U{A0}'
  }

  predicate IsWhiteSpace(s: string)
  {
    forall i :: 0 <= i < |s| ==> IsWhiteSpaceChar(s[i])
  }

  /** string.IsNullOrWhiteSpace */
  predicate IsNullOrWhiteSpace(s: Option<string>)
    ensures s.None? || s == Some("") ==> IsNullOrWhiteSpace(s)
    ensures s.Some? && (exists i :: 0 <= i < |s.value| && 'a' <= FoldChar(s.value[i]) <= 'z') ==> !IsNullOrWhiteSpace(s)
  {
    s.None? || IsWhiteSpace(s.value)
  }

  /** Ignoring case, a string starts with a prefix exactly when their first
      characters agree one by one after folding. */
  lemma StartsWithIgnoreCaseAt(s: string, prefix: string)
    ensures StartsWithIgnoreCase(s, prefix) <==>
            |prefix| <= |s| && forall i :: 0 <= i < |prefix| ==> FoldChar(s[i]) == FoldChar(prefix[i])
  {
    if |prefix| <= |s| {
      var a, b := Fold(s[..|prefix|]), Fold(prefix);
      assert |a| == |b| == |prefix|;
      assert forall i :: 0 <= i < |prefix| ==> a[i] == FoldChar(s[i]) && b[i] == FoldChar(prefix[i]);
      if forall i :: 0 <= i < |prefix| ==> FoldChar(s[i]) == FoldChar(prefix[i]) {
        assert a == b;
      }
    }
  }

  /** Whether a name starts with a prefix ignoring case does not depend on how
      the name itself is cased. */
  lemma StartsWithIgnoreCaseCongruent(a: string, b: string, prefix: string)
    requires EqualsIgnoreCase(a, b)
    ensures StartsWithIgnoreCase(a, prefix) <==> StartsWithIgnoreCase(b, prefix)
  {
    assert |a| == |Fold(a)| == |Fold(b)| == |b|;
    assert forall i :: 0 <= i < |a| ==> FoldChar(a[i]) == Fold(a)[i] == Fold(b)[i] == FoldChar(b[i]);
    StartsWithIgnoreCaseAt(a, prefix);
    StartsWithIgnoreCaseAt(b, prefix);
  }

  /** A set grown by more names still contains, ignoring case, every name it contained. */
  lemma ContainsIgnoreCaseGrows(names: set<string>, more: set<string>, name: string)
    requires names <= more && ContainsIgnoreCase(names, name)
    ensures ContainsIgnoreCase(more, name)
  {
    var n :| n in names && EqualsIgnoreCase(n, name);
    assert n in more;
  }

}
