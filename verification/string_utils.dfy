/** The one string helper of the mapper: upper-casing the first character of a type name
    so that it can be glued onto "get" or "set" to name a JDBC accessor. */
module StringUtils {

  predicate IsAsciiLower(c: char) {
    'a' <= c <= 'z'
  }

  predicate IsAsciiUpper(c: char) {
    'A' <= c <= 'Z'
  }

  /** Upper-case mapping of one character; only the ASCII letters are mapped. */
  function ToUpper(c: char): char {
    if IsAsciiLower(c) then (c as int - 32) as char else c
  }

  /** `StringUtils.capitalize`: the first character upper-cased, every other one kept.
      An empty string makes `substring(0, 1)` throw, hence the precondition. */
  function Capitalize(s: string): (r: string)
    requires |s| > 0
    ensures |r| == |s|
    ensures IsAsciiLower(s[0]) ==> IsAsciiUpper(r[0]) && r[0] as int == s[0] as int - 32
    ensures !IsAsciiLower(s[0]) ==> r[0] == s[0]
    ensures forall i :: 1 <= i < |s| ==> r[i] == s[i]
  {
    [ToUpper(s[0])] + s[1..]
  }

  /** Capitalizing twice is capitalizing once. */
  lemma CapitalizeIdempotent(s: string)
    requires |s| > 0
    ensures Capitalize(Capitalize(s)) == Capitalize(s)
  {
    var r := Capitalize(s);
    assert !IsAsciiLower(r[0]);
    assert Capitalize(r) == [r[0]] + r[1..] == r;
  }

  /** A string that does not start with a lower-case letter is returned unchanged
      ("String" stays "String"). */
  lemma CapitalizeKeepsCapitalized(s: string)
    requires |s| > 0 && !IsAsciiLower(s[0])
    ensures Capitalize(s) == s
  {
    assert Capitalize(s) == [s[0]] + s[1..] == s;
  }

  /** The simple names of the Java types the mapper meets become the JDBC accessor suffixes. */
  lemma CapitalizeTypeNames()
    ensures Capitalize("int") == "Int"
    ensures Capitalize("float") == "Float"
    ensures Capitalize("boolean") == "Boolean"
    ensures Capitalize("String") == "String"
  {
    CapitalizeKeepsCapitalized("String");
  }
}
