/** Shapes of the names and digests that journals, receipts and paths carry. */
module Identifiers {

  predicate IsSha256(text: string) {
    |text| == 64 && forall i :: 0 <= i < |text| ==> '0' <= text[i] <= '9' || 'a' <= text[i] <= 'f'
  }

  predicate IdentifierCharacter(c: char) {
    'a' <= c <= 'z' || 'A' <= c <= 'Z' || '0' <= c <= '9' || c == '_' || c == '.' || c == '-'
  }

  predicate IsIdentifier(text: string) {
    text != "" && forall i :: 0 <= i < |text| ==> IdentifierCharacter(text[i])
  }

  lemma Sha256Iff(text: string)
    ensures IsSha256(text) <==> |text| == 64 && forall c :: c in text ==> c in "0123456789abcdef"
  {
    forall i | 0 <= i < |text|
      ensures text[i] in text
      ensures ('0' <= text[i] <= '9' || 'a' <= text[i] <= 'f') <==> text[i] in "0123456789abcdef"
    {
    }
  }

  lemma IdentifierIff(text: string)
    ensures IsIdentifier(text) <==>
              |text| >= 1 && forall c :: c in text ==> 'a' <= c <= 'z' || 'A' <= c <= 'Z' || '0' <= c <= '9' || c in "_.-"
  {
    forall i | 0 <= i < |text|
      ensures text[i] in text
    {
    }
  }
}
