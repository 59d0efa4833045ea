/** The Huffman table of HPACK (RFC 7541, appendix B) and the facts about it that coding needs.
    The table is a canonical code: its words, ordered by length and then by symbol, count upwards.
    From that one checked fact follow that no word is a prefix of another and that no bit string
    can leave the table's tree. */
module HuffmanTable {
  const SYMBOLS := 257  // 256 bytes, and the end-of-string symbol 256
  const LONGEST := 30

  datatype Codeword = Codeword(len: nat, value: nat)

  function CodeOfRow0(i: nat): Codeword {
    if i == 0 then Codeword(13, 0x1ff8) else if i == 1 then Codeword(23, 0x7fffd8) else
    if i == 2 then Codeword(28, 0xfffffe2) else if i == 3 then Codeword(28, 0xfffffe3) else
    if i == 4 then Codeword(28, 0xfffffe4) else if i == 5 then Codeword(28, 0xfffffe5) else
    if i == 6 then Codeword(28, 0xfffffe6) else if i == 7 then Codeword(28, 0xfffffe7) else
    if i == 8 then Codeword(28, 0xfffffe8) else if i == 9 then Codeword(24, 0xffffea) else
    if i == 10 then Codeword(30, 0x3ffffffc) else if i == 11 then Codeword(28, 0xfffffe9) else
    if i == 12 then Codeword(28, 0xfffffea) else if i == 13 then Codeword(30, 0x3ffffffd) else
    if i == 14 then Codeword(28, 0xfffffeb) else Codeword(28, 0xfffffec)
  }

  function CodeOfRow1(i: nat): Codeword {
    if i == 16 then Codeword(28, 0xfffffed) else if i == 17 then Codeword(28, 0xfffffee) else
    if i == 18 then Codeword(28, 0xfffffef) else if i == 19 then Codeword(28, 0xffffff0) else
    if i == 20 then Codeword(28, 0xffffff1) else if i == 21 then Codeword(28, 0xffffff2) else
    if i == 22 then Codeword(30, 0x3ffffffe) else if i == 23 then Codeword(28, 0xffffff3) else
    if i == 24 then Codeword(28, 0xffffff4) else if i == 25 then Codeword(28, 0xffffff5) else
    if i == 26 then Codeword(28, 0xffffff6) else if i == 27 then Codeword(28, 0xffffff7) else
    if i == 28 then Codeword(28, 0xffffff8) else if i == 29 then Codeword(28, 0xffffff9) else
    if i == 30 then Codeword(28, 0xffffffa) else Codeword(28, 0xffffffb)
  }

  function CodeOfRow2(i: nat): Codeword {
    if i == 32 then Codeword(6, 0x14) else if i == 33 then Codeword(10, 0x3f8) else
    if i == 34 then Codeword(10, 0x3f9) else if i == 35 then Codeword(12, 0xffa) else
    if i == 36 then Codeword(13, 0x1ff9) else if i == 37 then Codeword(6, 0x15) else
    if i == 38 then Codeword(8, 0xf8) else if i == 39 then Codeword(11, 0x7fa) else
    if i == 40 then Codeword(10, 0x3fa) else if i == 41 then Codeword(10, 0x3fb) else
    if i == 42 then Codeword(8, 0xf9) else if i == 43 then Codeword(11, 0x7fb) else
    if i == 44 then Codeword(8, 0xfa) else if i == 45 then Codeword(6, 0x16) else
    if i == 46 then Codeword(6, 0x17) else Codeword(6, 0x18)
  }

  function CodeOfRow3(i: nat): Codeword {
    if i == 48 then Codeword(5, 0x0) else if i == 49 then Codeword(5, 0x1) else
    if i == 50 then Codeword(5, 0x2) else if i == 51 then Codeword(6, 0x19) else
    if i == 52 then Codeword(6, 0x1a) else if i == 53 then Codeword(6, 0x1b) else
    if i == 54 then Codeword(6, 0x1c) else if i == 55 then Codeword(6, 0x1d) else
    if i == 56 then Codeword(6, 0x1e) else if i == 57 then Codeword(6, 0x1f) else
    if i == 58 then Codeword(7, 0x5c) else if i == 59 then Codeword(8, 0xfb) else
    if i == 60 then Codeword(15, 0x7ffc) else if i == 61 then Codeword(6, 0x20) else
    if i == 62 then Codeword(12, 0xffb) else Codeword(10, 0x3fc)
  }

  function CodeOfRow4(i: nat): Codeword {
    if i == 64 then Codeword(13, 0x1ffa) else if i == 65 then Codeword(6, 0x21) else
    if i == 66 then Codeword(7, 0x5d) else if i == 67 then Codeword(7, 0x5e) else
    if i == 68 then Codeword(7, 0x5f) else if i == 69 then Codeword(7, 0x60) else
    if i == 70 then Codeword(7, 0x61) else if i == 71 then Codeword(7, 0x62) else
    if i == 72 then Codeword(7, 0x63) else if i == 73 then Codeword(7, 0x64) else
    if i == 74 then Codeword(7, 0x65) else if i == 75 then Codeword(7, 0x66) else
    if i == 76 then Codeword(7, 0x67) else if i == 77 then Codeword(7, 0x68) else
    if i == 78 then Codeword(7, 0x69) else Codeword(7, 0x6a)
  }

  function CodeOfRow5(i: nat): Codeword {
    if i == 80 then Codeword(7, 0x6b) else if i == 81 then Codeword(7, 0x6c) else
    if i == 82 then Codeword(7, 0x6d) else if i == 83 then Codeword(7, 0x6e) else
    if i == 84 then Codeword(7, 0x6f) else if i == 85 then Codeword(7, 0x70) else
    if i == 86 then Codeword(7, 0x71) else if i == 87 then Codeword(7, 0x72) else
    if i == 88 then Codeword(8, 0xfc) else if i == 89 then Codeword(7, 0x73) else
    if i == 90 then Codeword(8, 0xfd) else if i == 91 then Codeword(13, 0x1ffb) else
    if i == 92 then Codeword(19, 0x7fff0) else if i == 93 then Codeword(13, 0x1ffc) else
    if i == 94 then Codeword(14, 0x3ffc) else Codeword(6, 0x22)
  }

  function CodeOfRow6(i: nat): Codeword {
    if i == 96 then Codeword(15, 0x7ffd) else if i == 97 then Codeword(5, 0x3) else
    if i == 98 then Codeword(6, 0x23) else if i == 99 then Codeword(5, 0x4) else
    if i == 100 then Codeword(6, 0x24) else if i == 101 then Codeword(5, 0x5) else
    if i == 102 then Codeword(6, 0x25) else if i == 103 then Codeword(6, 0x26) else
    if i == 104 then Codeword(6, 0x27) else if i == 105 then Codeword(5, 0x6) else
    if i == 106 then Codeword(7, 0x74) else if i == 107 then Codeword(7, 0x75) else
    if i == 108 then Codeword(6, 0x28) else if i == 109 then Codeword(6, 0x29) else
    if i == 110 then Codeword(6, 0x2a) else Codeword(5, 0x7)
  }

  function CodeOfRow7(i: nat): Codeword {
    if i == 112 then Codeword(6, 0x2b) else if i == 113 then Codeword(7, 0x76) else
    if i == 114 then Codeword(6, 0x2c) else if i == 115 then Codeword(5, 0x8) else
    if i == 116 then Codeword(5, 0x9) else if i == 117 then Codeword(6, 0x2d) else
    if i == 118 then Codeword(7, 0x77) else if i == 119 then Codeword(7, 0x78) else
    if i == 120 then Codeword(7, 0x79) else if i == 121 then Codeword(7, 0x7a) else
    if i == 122 then Codeword(7, 0x7b) else if i == 123 then Codeword(15, 0x7ffe) else
    if i == 124 then Codeword(11, 0x7fc) else if i == 125 then Codeword(14, 0x3ffd) else
    if i == 126 then Codeword(13, 0x1ffd) else Codeword(28, 0xffffffc)
  }

  function CodeOfRow8(i: nat): Codeword {
    if i == 128 then Codeword(20, 0xfffe6) else if i == 129 then Codeword(22, 0x3fffd2) else
    if i == 130 then Codeword(20, 0xfffe7) else if i == 131 then Codeword(20, 0xfffe8) else
    if i == 132 then Codeword(22, 0x3fffd3) else if i == 133 then Codeword(22, 0x3fffd4) else
    if i == 134 then Codeword(22, 0x3fffd5) else if i == 135 then Codeword(23, 0x7fffd9) else
    if i == 136 then Codeword(22, 0x3fffd6) else if i == 137 then Codeword(23, 0x7fffda) else
    if i == 138 then Codeword(23, 0x7fffdb) else if i == 139 then Codeword(23, 0x7fffdc) else
    if i == 140 then Codeword(23, 0x7fffdd) else if i == 141 then Codeword(23, 0x7fffde) else
    if i == 142 then Codeword(24, 0xffffeb) else Codeword(23, 0x7fffdf)
  }

  function CodeOfRow9(i: nat): Codeword {
    if i == 144 then Codeword(24, 0xffffec) else if i == 145 then Codeword(24, 0xffffed) else
    if i == 146 then Codeword(22, 0x3fffd7) else if i == 147 then Codeword(23, 0x7fffe0) else
    if i == 148 then Codeword(24, 0xffffee) else if i == 149 then Codeword(23, 0x7fffe1) else
    if i == 150 then Codeword(23, 0x7fffe2) else if i == 151 then Codeword(23, 0x7fffe3) else
    if i == 152 then Codeword(23, 0x7fffe4) else if i == 153 then Codeword(21, 0x1fffdc) else
    if i == 154 then Codeword(22, 0x3fffd8) else if i == 155 then Codeword(23, 0x7fffe5) else
    if i == 156 then Codeword(22, 0x3fffd9) else if i == 157 then Codeword(23, 0x7fffe6) else
    if i == 158 then Codeword(23, 0x7fffe7) else Codeword(24, 0xffffef)
  }

  function CodeOfRow10(i: nat): Codeword {
    if i == 160 then Codeword(22, 0x3fffda) else if i == 161 then Codeword(21, 0x1fffdd) else
    if i == 162 then Codeword(20, 0xfffe9) else if i == 163 then Codeword(22, 0x3fffdb) else
    if i == 164 then Codeword(22, 0x3fffdc) else if i == 165 then Codeword(23, 0x7fffe8) else
    if i == 166 then Codeword(23, 0x7fffe9) else if i == 167 then Codeword(21, 0x1fffde) else
    if i == 168 then Codeword(23, 0x7fffea) else if i == 169 then Codeword(22, 0x3fffdd) else
    if i == 170 then Codeword(22, 0x3fffde) else if i == 171 then Codeword(24, 0xfffff0) else
    if i == 172 then Codeword(21, 0x1fffdf) else if i == 173 then Codeword(22, 0x3fffdf) else
    if i == 174 then Codeword(23, 0x7fffeb) else Codeword(23, 0x7fffec)
  }

  function CodeOfRow11(i: nat): Codeword {
    if i == 176 then Codeword(21, 0x1fffe0) else if i == 177 then Codeword(21, 0x1fffe1) else
    if i == 178 then Codeword(22, 0x3fffe0) else if i == 179 then Codeword(21, 0x1fffe2) else
    if i == 180 then Codeword(23, 0x7fffed) else if i == 181 then Codeword(22, 0x3fffe1) else
    if i == 182 then Codeword(23, 0x7fffee) else if i == 183 then Codeword(23, 0x7fffef) else
    if i == 184 then Codeword(20, 0xfffea) else if i == 185 then Codeword(22, 0x3fffe2) else
    if i == 186 then Codeword(22, 0x3fffe3) else if i == 187 then Codeword(22, 0x3fffe4) else
    if i == 188 then Codeword(23, 0x7ffff0) else if i == 189 then Codeword(22, 0x3fffe5) else
    if i == 190 then Codeword(22, 0x3fffe6) else Codeword(23, 0x7ffff1)
  }

  function CodeOfRow12(i: nat): Codeword {
    if i == 192 then Codeword(26, 0x3ffffe0) else if i == 193 then Codeword(26, 0x3ffffe1) else
    if i == 194 then Codeword(20, 0xfffeb) else if i == 195 then Codeword(19, 0x7fff1) else
    if i == 196 then Codeword(22, 0x3fffe7) else if i == 197 then Codeword(23, 0x7ffff2) else
    if i == 198 then Codeword(22, 0x3fffe8) else if i == 199 then Codeword(25, 0x1ffffec) else
    if i == 200 then Codeword(26, 0x3ffffe2) else if i == 201 then Codeword(26, 0x3ffffe3) else
    if i == 202 then Codeword(26, 0x3ffffe4) else if i == 203 then Codeword(27, 0x7ffffde) else
    if i == 204 then Codeword(27, 0x7ffffdf) else if i == 205 then Codeword(26, 0x3ffffe5) else
    if i == 206 then Codeword(24, 0xfffff1) else Codeword(25, 0x1ffffed)
  }

  function CodeOfRow13(i: nat): Codeword {
    if i == 208 then Codeword(19, 0x7fff2) else if i == 209 then Codeword(21, 0x1fffe3) else
    if i == 210 then Codeword(26, 0x3ffffe6) else if i == 211 then Codeword(27, 0x7ffffe0) else
    if i == 212 then Codeword(27, 0x7ffffe1) else if i == 213 then Codeword(26, 0x3ffffe7) else
    if i == 214 then Codeword(27, 0x7ffffe2) else if i == 215 then Codeword(24, 0xfffff2) else
    if i == 216 then Codeword(21, 0x1fffe4) else if i == 217 then Codeword(21, 0x1fffe5) else
    if i == 218 then Codeword(26, 0x3ffffe8) else if i == 219 then Codeword(26, 0x3ffffe9) else
    if i == 220 then Codeword(28, 0xffffffd) else if i == 221 then Codeword(27, 0x7ffffe3) else
    if i == 222 then Codeword(27, 0x7ffffe4) else Codeword(27, 0x7ffffe5)
  }

  function CodeOfRow14(i: nat): Codeword {
    if i == 224 then Codeword(20, 0xfffec) else if i == 225 then Codeword(24, 0xfffff3) else
    if i == 226 then Codeword(20, 0xfffed) else if i == 227 then Codeword(21, 0x1fffe6) else
    if i == 228 then Codeword(22, 0x3fffe9) else if i == 229 then Codeword(21, 0x1fffe7) else
    if i == 230 then Codeword(21, 0x1fffe8) else if i == 231 then Codeword(23, 0x7ffff3) else
    if i == 232 then Codeword(22, 0x3fffea) else if i == 233 then Codeword(22, 0x3fffeb) else
    if i == 234 then Codeword(25, 0x1ffffee) else if i == 235 then Codeword(25, 0x1ffffef) else
    if i == 236 then Codeword(24, 0xfffff4) else if i == 237 then Codeword(24, 0xfffff5) else
    if i == 238 then Codeword(26, 0x3ffffea) else Codeword(23, 0x7ffff4)
  }

  function CodeOfRow15(i: nat): Codeword {
    if i == 240 then Codeword(26, 0x3ffffeb) else if i == 241 then Codeword(27, 0x7ffffe6) else
    if i == 242 then Codeword(26, 0x3ffffec) else if i == 243 then Codeword(26, 0x3ffffed) else
    if i == 244 then Codeword(27, 0x7ffffe7) else if i == 245 then Codeword(27, 0x7ffffe8) else
    if i == 246 then Codeword(27, 0x7ffffe9) else if i == 247 then Codeword(27, 0x7ffffea) else
    if i == 248 then Codeword(27, 0x7ffffeb) else if i == 249 then Codeword(28, 0xffffffe) else
    if i == 250 then Codeword(27, 0x7ffffec) else if i == 251 then Codeword(27, 0x7ffffed) else
    if i == 252 then Codeword(27, 0x7ffffee) else if i == 253 then Codeword(27, 0x7ffffef) else
    if i == 254 then Codeword(27, 0x7fffff0) else Codeword(26, 0x3ffffee)
  }

  function CodeOfRow16(i: nat): Codeword {
    Codeword(30, 0x3fffffff)
  }

  /** The code word of symbol `i`, as a length and a value. */
  function CodeOf(i: nat): Codeword
    requires i < SYMBOLS
  {
    if i < 16 then CodeOfRow0(i)
    else if i < 32 then CodeOfRow1(i)
    else if i < 48 then CodeOfRow2(i)
    else if i < 64 then CodeOfRow3(i)
    else if i < 80 then CodeOfRow4(i)
    else if i < 96 then CodeOfRow5(i)
    else if i < 112 then CodeOfRow6(i)
    else if i < 128 then CodeOfRow7(i)
    else if i < 144 then CodeOfRow8(i)
    else if i < 160 then CodeOfRow9(i)
    else if i < 176 then CodeOfRow10(i)
    else if i < 192 then CodeOfRow11(i)
    else if i < 208 then CodeOfRow12(i)
    else if i < 224 then CodeOfRow13(i)
    else if i < 240 then CodeOfRow14(i)
    else if i < 256 then CodeOfRow15(i)
    else CodeOfRow16(i)
  }

  function SymbolAtRow0(i: nat): nat {
    if i == 0 then 48 else if i == 1 then 49 else if i == 2 then 50 else if i == 3 then 97 else
    if i == 4 then 99 else if i == 5 then 101 else if i == 6 then 105 else if i == 7 then 111 else
    if i == 8 then 115 else if i == 9 then 116 else if i == 10 then 32 else if i == 11 then 37 else
    if i == 12 then 45 else if i == 13 then 46 else if i == 14 then 47 else 51
  }

  function SymbolAtRow1(i: nat): nat {
    if i == 16 then 52 else if i == 17 then 53 else if i == 18 then 54 else if i == 19 then 55 else
    if i == 20 then 56 else if i == 21 then 57 else if i == 22 then 61 else if i == 23 then 65 else
    if i == 24 then 95 else if i == 25 then 98 else if i == 26 then 100 else if i == 27 then 102 else
    if i == 28 then 103 else if i == 29 then 104 else if i == 30 then 108 else 109
  }

  function SymbolAtRow2(i: nat): nat {
    if i == 32 then 110 else if i == 33 then 112 else if i == 34 then 114 else if i == 35 then 117 else
    if i == 36 then 58 else if i == 37 then 66 else if i == 38 then 67 else if i == 39 then 68 else
    if i == 40 then 69 else if i == 41 then 70 else if i == 42 then 71 else if i == 43 then 72 else
    if i == 44 then 73 else if i == 45 then 74 else if i == 46 then 75 else 76
  }

  function SymbolAtRow3(i: nat): nat {
    if i == 48 then 77 else if i == 49 then 78 else if i == 50 then 79 else if i == 51 then 80 else
    if i == 52 then 81 else if i == 53 then 82 else if i == 54 then 83 else if i == 55 then 84 else
    if i == 56 then 85 else if i == 57 then 86 else if i == 58 then 87 else if i == 59 then 89 else
    if i == 60 then 106 else if i == 61 then 107 else if i == 62 then 113 else 118
  }

  function SymbolAtRow4(i: nat): nat {
    if i == 64 then 119 else if i == 65 then 120 else if i == 66 then 121 else if i == 67 then 122 else
    if i == 68 then 38 else if i == 69 then 42 else if i == 70 then 44 else if i == 71 then 59 else
    if i == 72 then 88 else if i == 73 then 90 else if i == 74 then 33 else if i == 75 then 34 else
    if i == 76 then 40 else if i == 77 then 41 else if i == 78 then 63 else 39
  }

  function SymbolAtRow5(i: nat): nat {
    if i == 80 then 43 else if i == 81 then 124 else if i == 82 then 35 else if i == 83 then 62 else
    if i == 84 then 0 else if i == 85 then 36 else if i == 86 then 64 else if i == 87 then 91 else
    if i == 88 then 93 else if i == 89 then 126 else if i == 90 then 94 else if i == 91 then 125 else
    if i == 92 then 60 else if i == 93 then 96 else if i == 94 then 123 else 92
  }

  function SymbolAtRow6(i: nat): nat {
    if i == 96 then 195 else if i == 97 then 208 else if i == 98 then 128 else if i == 99 then 130 else
    if i == 100 then 131 else if i == 101 then 162 else if i == 102 then 184 else if i == 103 then 194 else
    if i == 104 then 224 else if i == 105 then 226 else if i == 106 then 153 else if i == 107 then 161 else
    if i == 108 then 167 else if i == 109 then 172 else if i == 110 then 176 else 177
  }

  function SymbolAtRow7(i: nat): nat {
    if i == 112 then 179 else if i == 113 then 209 else if i == 114 then 216 else if i == 115 then 217 else
    if i == 116 then 227 else if i == 117 then 229 else if i == 118 then 230 else if i == 119 then 129 else
    if i == 120 then 132 else if i == 121 then 133 else if i == 122 then 134 else if i == 123 then 136 else
    if i == 124 then 146 else if i == 125 then 154 else if i == 126 then 156 else 160
  }

  function SymbolAtRow8(i: nat): nat {
    if i == 128 then 163 else if i == 129 then 164 else if i == 130 then 169 else if i == 131 then 170 else
    if i == 132 then 173 else if i == 133 then 178 else if i == 134 then 181 else if i == 135 then 185 else
    if i == 136 then 186 else if i == 137 then 187 else if i == 138 then 189 else if i == 139 then 190 else
    if i == 140 then 196 else if i == 141 then 198 else if i == 142 then 228 else 232
  }

  function SymbolAtRow9(i: nat): nat {
    if i == 144 then 233 else if i == 145 then 1 else if i == 146 then 135 else if i == 147 then 137 else
    if i == 148 then 138 else if i == 149 then 139 else if i == 150 then 140 else if i == 151 then 141 else
    if i == 152 then 143 else if i == 153 then 147 else if i == 154 then 149 else if i == 155 then 150 else
    if i == 156 then 151 else if i == 157 then 152 else if i == 158 then 155 else 157
  }

  function SymbolAtRow10(i: nat): nat {
    if i == 160 then 158 else if i == 161 then 165 else if i == 162 then 166 else if i == 163 then 168 else
    if i == 164 then 174 else if i == 165 then 175 else if i == 166 then 180 else if i == 167 then 182 else
    if i == 168 then 183 else if i == 169 then 188 else if i == 170 then 191 else if i == 171 then 197 else
    if i == 172 then 231 else if i == 173 then 239 else if i == 174 then 9 else 142
  }

  function SymbolAtRow11(i: nat): nat {
    if i == 176 then 144 else if i == 177 then 145 else if i == 178 then 148 else if i == 179 then 159 else
    if i == 180 then 171 else if i == 181 then 206 else if i == 182 then 215 else if i == 183 then 225 else
    if i == 184 then 236 else if i == 185 then 237 else if i == 186 then 199 else if i == 187 then 207 else
    if i == 188 then 234 else if i == 189 then 235 else if i == 190 then 192 else 193
  }

  function SymbolAtRow12(i: nat): nat {
    if i == 192 then 200 else if i == 193 then 201 else if i == 194 then 202 else if i == 195 then 205 else
    if i == 196 then 210 else if i == 197 then 213 else if i == 198 then 218 else if i == 199 then 219 else
    if i == 200 then 238 else if i == 201 then 240 else if i == 202 then 242 else if i == 203 then 243 else
    if i == 204 then 255 else if i == 205 then 203 else if i == 206 then 204 else 211
  }

  function SymbolAtRow13(i: nat): nat {
    if i == 208 then 212 else if i == 209 then 214 else if i == 210 then 221 else if i == 211 then 222 else
    if i == 212 then 223 else if i == 213 then 241 else if i == 214 then 244 else if i == 215 then 245 else
    if i == 216 then 246 else if i == 217 then 247 else if i == 218 then 248 else if i == 219 then 250 else
    if i == 220 then 251 else if i == 221 then 252 else if i == 222 then 253 else 254
  }

  function SymbolAtRow14(i: nat): nat {
    if i == 224 then 2 else if i == 225 then 3 else if i == 226 then 4 else if i == 227 then 5 else
    if i == 228 then 6 else if i == 229 then 7 else if i == 230 then 8 else if i == 231 then 11 else
    if i == 232 then 12 else if i == 233 then 14 else if i == 234 then 15 else if i == 235 then 16 else
    if i == 236 then 17 else if i == 237 then 18 else if i == 238 then 19 else 20
  }

  function SymbolAtRow15(i: nat): nat {
    if i == 240 then 21 else if i == 241 then 23 else if i == 242 then 24 else if i == 243 then 25 else
    if i == 244 then 26 else if i == 245 then 27 else if i == 246 then 28 else if i == 247 then 29 else
    if i == 248 then 30 else if i == 249 then 31 else if i == 250 then 127 else if i == 251 then 220 else
    if i == 252 then 249 else if i == 253 then 10 else if i == 254 then 13 else 22
  }

  function SymbolAtRow16(i: nat): nat {
    256
  }

  /** The symbols ordered by code length, then by code value. */
  function SymbolAt(i: nat): nat
    requires i < SYMBOLS
  {
    if i < 16 then SymbolAtRow0(i)
    else if i < 32 then SymbolAtRow1(i)
    else if i < 48 then SymbolAtRow2(i)
    else if i < 64 then SymbolAtRow3(i)
    else if i < 80 then SymbolAtRow4(i)
    else if i < 96 then SymbolAtRow5(i)
    else if i < 112 then SymbolAtRow6(i)
    else if i < 128 then SymbolAtRow7(i)
    else if i < 144 then SymbolAtRow8(i)
    else if i < 160 then SymbolAtRow9(i)
    else if i < 176 then SymbolAtRow10(i)
    else if i < 192 then SymbolAtRow11(i)
    else if i < 208 then SymbolAtRow12(i)
    else if i < 224 then SymbolAtRow13(i)
    else if i < 240 then SymbolAtRow14(i)
    else if i < 256 then SymbolAtRow15(i)
    else SymbolAtRow16(i)
  }

  /** The `rank`-th word of the canonical code with this table's number of words per length. */
  function Canonical(rank: nat): Codeword
    requires rank < SYMBOLS
  {
    if rank < 10 then Codeword(5, 0x0 + (rank - 0))
    else if rank < 36 then Codeword(6, 0x14 + (rank - 10))
    else if rank < 68 then Codeword(7, 0x5c + (rank - 36))
    else if rank < 74 then Codeword(8, 0xf8 + (rank - 68))
    else if rank < 79 then Codeword(10, 0x3f8 + (rank - 74))
    else if rank < 82 then Codeword(11, 0x7fa + (rank - 79))
    else if rank < 84 then Codeword(12, 0xffa + (rank - 82))
    else if rank < 90 then Codeword(13, 0x1ff8 + (rank - 84))
    else if rank < 92 then Codeword(14, 0x3ffc + (rank - 90))
    else if rank < 95 then Codeword(15, 0x7ffc + (rank - 92))
    else if rank < 98 then Codeword(19, 0x7fff0 + (rank - 95))
    else if rank < 106 then Codeword(20, 0xfffe6 + (rank - 98))
    else if rank < 119 then Codeword(21, 0x1fffdc + (rank - 106))
    else if rank < 145 then Codeword(22, 0x3fffd2 + (rank - 119))
    else if rank < 174 then Codeword(23, 0x7fffd8 + (rank - 145))
    else if rank < 186 then Codeword(24, 0xffffea + (rank - 174))
    else if rank < 190 then Codeword(25, 0x1ffffec + (rank - 186))
    else if rank < 205 then Codeword(26, 0x3ffffe0 + (rank - 190))
    else if rank < 224 then Codeword(27, 0x7ffffde + (rank - 205))
    else if rank < 253 then Codeword(28, 0xfffffe2 + (rank - 224))
    else Codeword(30, 0x3ffffffc + (rank - 253))
  }

  /** How many words have length `len`. */
  function Count(len: nat): nat {
    if len == 5 then 10 else if len == 6 then 26 else if len == 7 then 32 else if len == 8 then 6 else
    if len == 10 then 5 else if len == 11 then 3 else if len == 12 then 2 else if len == 13 then 6 else
    if len == 14 then 2 else if len == 15 then 3 else if len == 19 then 3 else if len == 20 then 8 else
    if len == 21 then 13 else if len == 22 then 26 else if len == 23 then 29 else if len == 24 then 12 else
    if len == 25 then 4 else if len == 26 then 15 else if len == 27 then 19 else if len == 28 then 29 else
    if len == 30 then 4 else 0
  }

  /** The value of the first word of length `len`, were there one. */
  function First(len: nat): nat {
    if len <= 5 then 0 else if len == 6 then 0x14 else if len == 7 then 0x5c else if len == 8 then 0xf8 else
    if len == 9 then 0x1fc else if len == 10 then 0x3f8 else if len == 11 then 0x7fa else
    if len == 12 then 0xffa else if len == 13 then 0x1ff8 else if len == 14 then 0x3ffc else
    if len == 15 then 0x7ffc else if len == 16 then 0xfffe else if len == 17 then 0x1fffc else
    if len == 18 then 0x3fff8 else if len == 19 then 0x7fff0 else if len == 20 then 0xfffe6 else
    if len == 21 then 0x1fffdc else if len == 22 then 0x3fffd2 else if len == 23 then 0x7fffd8 else
    if len == 24 then 0xffffea else if len == 25 then 0x1ffffec else if len == 26 then 0x3ffffe0 else
    if len == 27 then 0x7ffffde else if len == 28 then 0xfffffe2 else if len == 29 then 0x1ffffffe else 0x3ffffffc
  }

  /** How many words are shorter than `len`. */
  function Offset(len: nat): nat {
    if len <= 5 then 0 else if len == 6 then 10 else if len == 7 then 36 else if len == 8 then 68 else
    if len == 9 then 74 else if len == 10 then 74 else if len == 11 then 79 else if len == 12 then 82 else
    if len == 13 then 84 else if len == 14 then 90 else if len == 15 then 92 else if len == 16 then 95 else
    if len == 17 then 95 else if len == 18 then 95 else if len == 19 then 95 else if len == 20 then 98 else
    if len == 21 then 106 else if len == 22 then 119 else if len == 23 then 145 else if len == 24 then 174 else
    if len == 25 then 186 else if len == 26 then 190 else if len == 27 then 205 else if len == 28 then 224 else
    if len == 29 then 253 else 253
  }

  lemma Canonical5To7(rank: nat)
    requires 0 <= rank < 68
    ensures CodeOf(SymbolAt(rank)) == Canonical(rank)
  {
  }

  lemma Canonical8To20(rank: nat)
    requires 68 <= rank < 106
    ensures CodeOf(SymbolAt(rank)) == Canonical(rank)
  {
  }

  lemma Canonical21To22(rank: nat)
    requires 106 <= rank < 145
    ensures CodeOf(SymbolAt(rank)) == Canonical(rank)
  {
  }

  lemma Canonical23To24(rank: nat)
    requires 145 <= rank < 186
    ensures CodeOf(SymbolAt(rank)) == Canonical(rank)
  {
  }

  lemma Canonical25To27(rank: nat)
    requires 186 <= rank < 224
    ensures CodeOf(SymbolAt(rank)) == Canonical(rank)
  {
  }

  lemma Canonical28To30(rank: nat)
    requires 224 <= rank < 257
    ensures CodeOf(SymbolAt(rank)) == Canonical(rank)
  {
  }

  /** The table is canonical. */
  lemma TableIsCanonical(rank: nat)
    requires rank < SYMBOLS
    ensures SymbolAt(rank) < SYMBOLS && CodeOf(SymbolAt(rank)) == Canonical(rank)
  {
    if rank < 68 { Canonical5To7(rank); }
    else if rank < 106 { Canonical8To20(rank); }
    else if rank < 145 { Canonical21To22(rank); }
    else if rank < 186 { Canonical23To24(rank); }
    else if rank < 224 { Canonical25To27(rank); }
    else { Canonical28To30(rank); }
  }
}
