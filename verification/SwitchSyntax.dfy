/** The shape of one command-line token: its switch prefix, and the first '='
    that ends a switch's name. */
module SwitchSyntax {

  const TERMINATOR := "--"

  /** GetSwitchPrefixLength: "--", "-" and, on Windows, "/" (which
      set_slash_is_not_a_switch turns off). */
  function PrefixLength(s: string, slash: bool): (n: nat)
    ensures n <= |s|
    ensures n > 0 <==> s != "" && (s[0] == '-' || (slash && s[0] == '/'))
  {
    if s == "" then 0
    else if s[0] == '-' then if |s| > 1 && s[1] == '-' then 2 else 1
    else if slash && s[0] == '/' then 1
    else 0
  }

  predicate IsSwitch(s: string, slash: bool) {
    0 < PrefixLength(s, slash) < |s|
  }

  /** The position of the first '=', or the length. */
  function EqualsAt(s: string): (k: nat)
    ensures k <= |s|
    ensures forall j :: 0 <= j < k ==> s[j] != '='
    ensures k < |s| ==> s[k] == '='
  {
    if s == "" || s[0] == '=' then 0 else 1 + EqualsAt(s[1..])
  }

  function Name(s: string): string {
    s[..EqualsAt(s)]
  }

  function Value(s: string): string {
    if EqualsAt(s) < |s| then s[EqualsAt(s) + 1..] else ""
  }

  lemma NameAndValue(s: string)
    ensures EqualsAt(s) < |s| ==> s == Name(s) + "=" + Value(s)
    ensures EqualsAt(s) == |s| ==> s == Name(s) && Value(s) == ""
  {
    var k := EqualsAt(s);
    if k < |s| {
      CutAt(s, k);
    } else {
      assert s[..k] == s;
    }
  }

  lemma CutAt(s: string, k: nat)
    requires k < |s| && s[k] == '='
    ensures s == s[..k] + "=" + s[k + 1..]
  {}
}
