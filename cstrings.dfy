/** C strings as the library sees them.

    A `const char*` carries the characters before its terminating NUL, so a
    value of that kind can never contain NUL.  Every place where the library
    hands a `std::string` on as `.c_str()` therefore drops everything from the
    first NUL on; `CStr` is that conversion. */
module CStrings {

  /** The characters of a NUL-terminated C string. */
  type CString = s: string | '\0' !in s

  /** `std::string(s).c_str()` read back as a string: the longest prefix of
      `s` without NUL. */
  function CStr(s: string): (r: CString)
    ensures |r| <= |s| && r == s[..|r|]
    ensures |r| < |s| ==> s[|r|] == '\0'
  {
    if s == [] || s[0] == '\0' then [] else [s[0]] + CStr(s[1..])
  }

  /** A string without NUL passes through `c_str()` unchanged. */
  lemma CStrOfCString(s: string)
    requires '\0' !in s
    ensures CStr(s) == s
  {
  }
}
