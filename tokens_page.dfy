/** The masking of secret values on the older tokens page
    (web-react/src/pages/Tokens.tsx). */
module TokensPage {
  import opened Common
  import SecretsPage

  /** `maskValue(value)` (web-react/src/pages/Tokens.tsx:67-70): the same
      rule as the secrets page without its separate `!value` test. */
  function MaskValue(value: string): (r: string)
    ensures |value| <= 8 ==> r == SecretsPage.Hidden
  {
    if |value| <= 8 then SecretsPage.Hidden
    else value[..4] + [SecretsPage.Bullet, SecretsPage.Bullet, SecretsPage.Bullet, SecretsPage.Bullet] + value[|value| - 4..]
  }

  /** The missing `!value` test changes nothing: both pages mask every value
      alike. */
  lemma MaskValueAgrees(value: string)
    ensures MaskValue(value) == SecretsPage.MaskValue(value)
  {
  }

  /** `maskValue(secret.value || '')` (web-react/src/pages/Tokens.tsx:102): a
      secret without a value shows eight bullets. */
  function DisplayedMask(value: Option<string>): (r: string)
    ensures !Truthy(value) ==> r == SecretsPage.Hidden
    ensures |r| == 8 || |r| == 12
  {
    MaskValueAgrees(OrElse(value, ""));
    MaskValue(OrElse(value, ""))
  }
}
