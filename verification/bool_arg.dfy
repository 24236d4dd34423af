/** `str2bool` of gdmix/util/io_utils.py, the argparse converter for boolean options. */
module BoolArg {
  import opened Results

  /** The Python value handed to the converter: a bool, a str, or anything else. */
  datatype ArgValue = BoolValue(b: bool) | StrValue(s: string) | OtherValue

  /** An ASCII upper-case letter. */
  predicate IsUpper(c: char)
  {
    'A' <= c <= 'Z'
  }

  /** `str.lower()` on one character, for the ASCII letters. */
  function LowerChar(c: char): char
  {
    if IsUpper(c) then (c as int - 'A' as int + 'a' as int) as char else c
  }

  /** `str.lower()` on ASCII text: no upper-case letter is left, every other character is
      kept where it was, and an upper-case letter becomes its lower-case partner. */
  function Lower(s: string): (r: string)
    ensures |r| == |s|
    ensures forall i :: 0 <= i < |r| ==> !IsUpper(r[i])
    ensures forall i :: 0 <= i < |s| && !IsUpper(s[i]) ==> r[i] == s[i]
    ensures forall i :: 0 <= i < |s| && IsUpper(s[i]) ==> r[i] as int == s[i] as int + 32
  {
    seq(|s|, i requires 0 <= i < |s| => LowerChar(s[i]))
  }

  /** Lower-casing twice is lower-casing once. */
  lemma LowerIdempotent(s: string)
    ensures Lower(Lower(s)) == Lower(s)
  {
  }

  /** `s` spells "true" in any mix of upper and lower case. */
  predicate SpellsTrue(s: string)
  {
    |s| == 4 && forall i :: 0 <= i < 4 ==> s[i] == "true"[i] || s[i] == "TRUE"[i]
  }

  /** `str2bool`: a bool passes through, a string is true exactly when it spells "true"
      ignoring case, and any other value raises ArgumentTypeError. */
  function Str2Bool(v: ArgValue): (r: Result<bool>)
    ensures v.BoolValue? ==> r == Ok(v.b)
    ensures v.StrValue? ==> r.Ok? && (r.value <==> SpellsTrue(v.s))
    ensures v.OtherValue? ==> r.Err?
  {
    match v
    case BoolValue(b) => Ok(b)
    case StrValue(s) =>
      var lowered := Lower(s);
      assert lowered == "true" <==> SpellsTrue(s) by {
        if SpellsTrue(s) {
          assert forall i :: 0 <= i < 4 ==> lowered[i] == "true"[i];
        }
        if lowered == "true" {
          assert forall i :: 0 <= i < 4 ==> LowerChar(s[i]) == "true"[i];
        }
      }
      Ok(lowered == "true")
    case OtherValue => Err("Boolean or string value expected.")
  }
}
