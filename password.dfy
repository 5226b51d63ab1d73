/** `validate_password` of `passwordStrength.py`: a password is accepted when
    it is longer than eight characters, has a lowercase and an uppercase ASCII
    letter and an ASCII digit, has no whitespace, and has one of the special
    characters. Each check is a `re.search` for one character class. */
module Password {
  import opened Wrappers

  predicate IsLower(c: char) { 'a' <= c <= 'z' }

  predicate IsUpper(c: char) { 'A' <= c <= 'Z' }

  predicate IsDigit(c: char) { '0' <= c <= '9' }

  /** Python's `\s` on a `str`: the characters `str.isspace` accepts. */
  predicate IsSpace(c: char) {
    || c == ' '
    || '\t' <= c <= '\r'
    || '\U{1C}' <= c <= '\U{1F}'
    || c == '\U{85}'
    || c == '\U{A0}'
    || c == '\U{1680}'
    || '\U{2000}' <= c <= '\U{200A}'
    || c == '\U{2028}'
    || c == '\U{2029}'
    || c == '\U{202F}'
    || c == '\U{205F}'
    || c == '\U{3000}'
  }

  /** The `specialCharacters` class. In the pattern `\|` stands for `|`; the
      backslash itself is not in the class. */
  predicate IsSpecial(c: char) {
    c in "@_!#$%^&*()<>?/|}{~:"
  }

  /** `re.search` with a one-character class: the first position whose
      character is in the class. */
  function Search(p: string, cls: char -> bool): (r: Option<nat>)
    ensures r.Some? ==> r.value < |p| && cls(p[r.value])
    ensures r.Some? ==> forall k | 0 <= k < r.value :: !cls(p[k])
    ensures r.None? <==> forall k | 0 <= k < |p| :: !cls(p[k])
  {
    if p == [] then None
    else if cls(p[0]) then Some(0)
    else match Search(p[1..], cls) {
      case None => None
      case Some(i) => Some(i + 1)
    }
  }

  /** Some character of `p` is in the class. */
  ghost predicate Has(p: string, cls: char -> bool) {
    exists i | 0 <= i < |p| :: cls(p[i])
  }

  /** The five character-class rules of the validator. */
  ghost predicate MeetsCharacterRules(p: string) {
    && Has(p, IsLower)
    && Has(p, IsUpper)
    && Has(p, IsDigit)
    && !Has(p, IsSpace)
    && Has(p, IsSpecial)
  }

  /** The `elif` chain after the length check, in the source's order. */
  function CharacterChecks(p: string): (ok: bool)
    ensures ok <==> MeetsCharacterRules(p)
  {
    if Search(p, IsLower).None? then false
    else if Search(p, IsUpper).None? then false
    else if Search(p, IsDigit).None? then false
    else if Search(p, IsSpace).Some? then false
    else if Search(p, IsSpecial).None? then false
    else true
  }

  /** `validate_password` as written: the length check rejects `len <= 8`. */
  function ValidatePassword(p: string): (valid: bool)
    ensures valid <==> |p| > 8 && MeetsCharacterRules(p)
  {
    if |p| <= 8 then false
    else CharacterChecks(p)
  }

  /** An eight-character password that meets every character rule is
      rejected, although the module header asks for a minimum of eight. */
  lemma EightCharactersRejected()
    ensures |"Pa5sw@rd"| == 8
    ensures MeetsCharacterRules("Pa5sw@rd")
    ensures !ValidatePassword("Pa5sw@rd")
  {
    var p := "Pa5sw@rd";
    assert IsLower(p[1]) && IsUpper(p[0]) && IsDigit(p[2]) && IsSpecial(p[5]);
    assert forall k | 0 <= k < |p| :: !IsSpace(p[k]);
  }

  /** The validator with the documented minimum of eight characters. */
  function ValidatePasswordMin8(p: string): (valid: bool)
    ensures valid <==> |p| >= 8 && MeetsCharacterRules(p)
  {
    if |p| < 8 then false
    else CharacterChecks(p)
  }
}
