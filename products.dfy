/** The product record of the storefront and the string operations its search uses. */
module Products {

  datatype Option<T> = None | Some(value: T)

  /**
   * A product as the catalog delivers it. Prices are whole cents. `idUnico` is
   * absent on catalog products and set on every entry the page puts in the cart.
   */
  datatype Product = Product(
    id: int,
    title: string,
    description: string,
    price: int,
    image: string,
    category: string,
    idUnico: Option<string>)

  /** `toLowerCase` on one character, ASCII letters only. */
  function ToLower(c: char): char {
    if 'A' <= c <= 'Z' then (c as int + 32) as char else c
  }

  /** `toLowerCase` on a string, character by character. */
  function LowerCase(s: string): string {
    seq(|s|, i requires 0 <= i < |s| => ToLower(s[i]))
  }

  /** `String.prototype.includes`: `pat` occurs in `text` as a contiguous block. */
  predicate Contains(text: string, pat: string) {
    exists i :: 0 <= i <= |text| - |pat| && pat <= text[i..]
  }

  /** Lower-casing keeps the length, so only the empty text lower-cases to the empty text. */
  lemma LowerCaseEmpty(s: string)
    ensures |LowerCase(s)| == |s|
    ensures LowerCase(s) == "" <==> s == ""
  {
  }

  /** The empty text occurs in every text. */
  lemma ContainsEmpty(text: string)
    ensures Contains(text, "")
  {
    assert "" <= text[0..];
  }
}
