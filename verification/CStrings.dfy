/** C strings: characters other than NUL, read up to the NUL that ends them. */
module CStrings {

  type CChar = c: char | c != '\0' witness 'a'
  type CString = seq<CChar>

  function At(s: CString, i: nat): char {
    if i < |s| then s[i] else '\0'
  }
}
