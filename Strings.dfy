/** String helpers standing in for the .NET library calls the command makes:
    `string.Join` and the regular expression `\d`. */
module Strings {

  /** A character the pattern `\d` matches (ASCII digits only). */
  predicate IsAsciiDigit(c: char) {
    '0' <= c <= '9'
  }

  /** `Regex.IsMatch(s, "\\d")`: a left-to-right scan for a digit. */
  function ContainsDigit(s: string): (b: bool)
    ensures b <==> exists i :: 0 <= i < |s| && IsAsciiDigit(s[i])
  {
    if |s| == 0 then false
    else if IsAsciiDigit(s[0]) then true
    else
      var rest := ContainsDigit(s[1..]);
      assert forall i :: 1 <= i < |s| ==> s[i] == s[1..][i - 1];
      rest
  }

  /** `string.Join(sep, parts)`: the parts with `sep` between neighbours. */
  function Join(sep: string, parts: seq<string>): string
  {
    if |parts| == 0 then ""
    else if |parts| == 1 then parts[0]
    else parts[0] + sep + Join(sep, parts[1..])
  }

  /** `string.Join(sep, a, b)` with two arguments is `a + sep + b`. */
  lemma JoinTwo(sep: string, a: string, b: string)
    ensures Join(sep, [a, b]) == a + sep + b
  {
    assert [a, b][1..] == [b];
  }

  /** A character occurs in a join exactly when it occurs in one of the parts, or
      in the separator and the separator is actually used (two parts or more). */
  lemma {:induction false} CharInJoin(sep: string, parts: seq<string>, c: char)
    ensures c in Join(sep, parts) <==>
              (exists i :: 0 <= i < |parts| && c in parts[i]) || (|parts| >= 2 && c in sep)
  {
    if |parts| >= 2 {
      var rest := parts[1..];
      CharInJoin(sep, rest, c);
      assert Join(sep, parts) == parts[0] + sep + Join(sep, rest);
      assert (exists i :: 0 <= i < |parts| && c in parts[i]) <==>
             c in parts[0] || (exists i :: 0 <= i < |rest| && c in rest[i]) by {
        if exists i :: 0 <= i < |parts| && c in parts[i] {
          var i :| 0 <= i < |parts| && c in parts[i];
          if i > 0 {
            assert c in rest[i - 1];
          }
        }
        if exists i :: 0 <= i < |rest| && c in rest[i] {
          var i :| 0 <= i < |rest| && c in rest[i];
          assert c in parts[i + 1];
        }
      }
    }
  }
}
