/** pkg/secrets/secret.go: a secret value and how it is displayed. */
module SecretValue {

  const Mask: string := "*****"

  /** A matched value with its Shannon entropy. */
  datatype Secret = Secret(value: string, entropy: real)
  {
    /** `Secret.String`, with the viper unmask flag passed as `unmask`. Go
        measures and slices the value in bytes; one character here is one
        byte. */
    function ToString(unmask: bool): (r: string)
      ensures value == "" ==> r == ""
      ensures value != "" && unmask ==> r == value
      ensures value != "" && !unmask && |value| < 6 ==> r == Mask
      ensures !unmask && |value| >= 6 ==>
        |r| == 11 && r[..3] == value[..3] && r[3..8] == Mask && r[8..] == value[|value| - 3..]
    {
      if value == "" then ""
      else if unmask then value
      else if |value| < 6 then Mask
      else value[..3] + Mask + value[|value| - 3..]
    }
  }

  /** A masked non-empty value always displays as 5 or 11 bytes, and at most
      six bytes of the value itself show through. */
  lemma MaskedLength(s: Secret)
    requires s.value != ""
    ensures |s.ToString(false)| == 5 || |s.ToString(false)| == 11
    ensures |s.ToString(false)| == 5 <==> |s.value| < 6
  {
  }

  /** The entropy never affects what is displayed. */
  lemma DisplayIgnoresEntropy(v: string, e1: real, e2: real, unmask: bool)
    ensures Secret(v, e1).ToString(unmask) == Secret(v, e2).ToString(unmask)
  {
  }

  /** The cases of pkg/secrets/secret_test.go. */
  lemma DisplayExamples()
    ensures Secret("", 0.0).ToString(false) == "" && Secret("", 0.0).ToString(true) == ""
    ensures Secret("<6", 0.0).ToString(true) == "<6"
    ensures Secret("unmasked-secret", 0.0).ToString(true) == "unmasked-secret"
    ensures Secret("<6", 0.0).ToString(false) == "*****"
    ensures Secret("masked-secret", 0.0).ToString(false) == "mas*****ret"
  {
    assert "masked-secret"[..3] == "mas";
    assert "masked-secret"[10..] == "ret";
  }
}
