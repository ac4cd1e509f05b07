/** The GSM 7-bit default alphabet of 3GPP TS 23.038, section 6.2.1. */
module Gsm7Tables {
  import opened Gsm7

  // Indexed by septet. Septet 0x1B, the escape, holds a placeholder.
  const GSM_TO_UNICODE: seq<char> := [
    '@', '\U{00A3}', '$', '\U{00A5}', '\U{00E8}', '\U{00E9}', '\U{00F9}', '\U{00EC}',
    '\U{00F2}', '\U{00C7}', '\n', '\U{00D8}', '\U{00F8}', '\r', '\U{00C5}', '\U{00E5}',
    '\U{0394}', '_', '\U{03A6}', '\U{0393}', '\U{039B}', '\U{03A9}', '\U{03A0}', '\U{03A8}',
    '\U{03A3}', '\U{0398}', '\U{039E}', '\U{001B}', '\U{00C6}', '\U{00E6}', '\U{00DF}', '\U{00C9}',
    ' ', '!', '"', '#', '\U{00A4}', '%', '&', '\'',
    '(', ')', '*', '+', ',', '-', '.', '/',
    '0', '1', '2', '3', '4', '5', '6', '7',
    '8', '9', ':', ';', '<', '=', '>', '?',
    '\U{00A1}', 'A', 'B', 'C', 'D', 'E', 'F', 'G',
    'H', 'I', 'J', 'K', 'L', 'M', 'N', 'O',
    'P', 'Q', 'R', 'S', 'T', 'U', 'V', 'W',
    'X', 'Y', 'Z', '\U{00C4}', '\U{00D6}', '\U{00D1}', '\U{00DC}', '\U{00A7}',
    '\U{00BF}', 'a', 'b', 'c', 'd', 'e', 'f', 'g',
    'h', 'i', 'j', 'k', 'l', 'm', 'n', 'o',
    'p', 'q', 'r', 's', 't', 'u', 'v', 'w',
    'x', 'y', 'z', '\U{00E4}', '\U{00F6}', '\U{00F1}', '\U{00FC}', '\U{00E0}'
  ]

  // Form feed, caret, braces, backslash, brackets, tilde, bar and euro.
  const EXT_TABLE: seq<Extension> := [
    Extension(0x0A, '\U{000C}'),
    Extension(0x14, '^'),
    Extension(0x28, '{'),
    Extension(0x29, '}'),
    Extension(0x2F, '\\'),
    Extension(0x3C, '['),
    Extension(0x3D, '~'),
    Extension(0x3E, ']'),
    Extension(0x40, '|'),
    Extension(0x65, '\U{20AC}')
  ]

  const GSM: Alphabet := Alphabet(GSM_TO_UNICODE, EXT_TABLE)

  lemma GsmIsValid()
    ensures Valid(GSM)
  {
    assert |GSM_TO_UNICODE| == 128;
    assert |EXT_TABLE| == 10;
    forall i, j | 0 <= i < j < |EXT_TABLE| ensures EXT_TABLE[i].code < EXT_TABLE[j].code {
    }
  }
}
