/** Multiplication in GF(256) by logarithm and exponential tables. */
module Galois {
  import opened Arithmetic
  import opened XorBits

  // The tables, as search trees whose leaves from left to right are the entries in order.
  function GfLog(k: Byte): Byte
  {
    if k < 128 then
      if k < 64 then
        if k < 32 then
          if k < 16 then
            if k < 8 then
              if k < 4 then
                if k < 2 then if k < 1 then 0 else 0 else if k < 3 then 1 else 25
              else
                if k < 6 then if k < 5 then 2 else 50 else if k < 7 then 26 else 198
            else
              if k < 12 then
                if k < 10 then if k < 9 then 3 else 223 else if k < 11 then 51 else 238
              else
                if k < 14 then if k < 13 then 27 else 104 else if k < 15 then 199 else 75
          else
            if k < 24 then
              if k < 20 then
                if k < 18 then if k < 17 then 4 else 100 else if k < 19 then 224 else 14
              else
                if k < 22 then if k < 21 then 52 else 141 else if k < 23 then 239 else 129
            else
              if k < 28 then
                if k < 26 then if k < 25 then 28 else 193 else if k < 27 then 105 else 248
              else
                if k < 30 then if k < 29 then 200 else 8 else if k < 31 then 76 else 113
        else
          if k < 48 then
            if k < 40 then
              if k < 36 then
                if k < 34 then if k < 33 then 5 else 138 else if k < 35 then 101 else 47
              else
                if k < 38 then if k < 37 then 225 else 36 else if k < 39 then 15 else 33
            else
              if k < 44 then
                if k < 42 then if k < 41 then 53 else 147 else if k < 43 then 142 else 218
              else
                if k < 46 then if k < 45 then 240 else 18 else if k < 47 then 130 else 69
          else
            if k < 56 then
              if k < 52 then
                if k < 50 then if k < 49 then 29 else 181 else if k < 51 then 194 else 125
              else
                if k < 54 then if k < 53 then 106 else 39 else if k < 55 then 249 else 185
            else
              if k < 60 then
                if k < 58 then if k < 57 then 201 else 154 else if k < 59 then 9 else 120
              else
                if k < 62 then if k < 61 then 77 else 228 else if k < 63 then 114 else 166
      else
        if k < 96 then
          if k < 80 then
            if k < 72 then
              if k < 68 then
                if k < 66 then if k < 65 then 6 else 191 else if k < 67 then 139 else 98
              else
                if k < 70 then if k < 69 then 102 else 221 else if k < 71 then 48 else 253
            else
              if k < 76 then
                if k < 74 then if k < 73 then 226 else 152 else if k < 75 then 37 else 179
              else
                if k < 78 then if k < 77 then 16 else 145 else if k < 79 then 34 else 136
          else
            if k < 88 then
              if k < 84 then
                if k < 82 then if k < 81 then 54 else 208 else if k < 83 then 148 else 206
              else
                if k < 86 then if k < 85 then 143 else 150 else if k < 87 then 219 else 189
            else
              if k < 92 then
                if k < 90 then if k < 89 then 241 else 210 else if k < 91 then 19 else 92
              else
                if k < 94 then if k < 93 then 131 else 56 else if k < 95 then 70 else 64
        else
          if k < 112 then
            if k < 104 then
              if k < 100 then
                if k < 98 then if k < 97 then 30 else 66 else if k < 99 then 182 else 163
              else
                if k < 102 then if k < 101 then 195 else 72 else if k < 103 then 126 else 110
            else
              if k < 108 then
                if k < 106 then if k < 105 then 107 else 58 else if k < 107 then 40 else 84
              else
                if k < 110 then if k < 109 then 250 else 133 else if k < 111 then 186 else 61
          else
            if k < 120 then
              if k < 116 then
                if k < 114 then if k < 113 then 202 else 94 else if k < 115 then 155 else 159
              else
                if k < 118 then if k < 117 then 10 else 21 else if k < 119 then 121 else 43
            else
              if k < 124 then
                if k < 122 then if k < 121 then 78 else 212 else if k < 123 then 229 else 172
              else
                if k < 126 then if k < 125 then 115 else 243 else if k < 127 then 167 else 87
    else
      if k < 192 then
        if k < 160 then
          if k < 144 then
            if k < 136 then
              if k < 132 then
                if k < 130 then if k < 129 then 7 else 112 else if k < 131 then 192 else 247
              else
                if k < 134 then if k < 133 then 140 else 128 else if k < 135 then 99 else 13
            else
              if k < 140 then
                if k < 138 then if k < 137 then 103 else 74 else if k < 139 then 222 else 237
              else
                if k < 142 then if k < 141 then 49 else 197 else if k < 143 then 254 else 24
          else
            if k < 152 then
              if k < 148 then
                if k < 146 then if k < 145 then 227 else 165 else if k < 147 then 153 else 119
              else
                if k < 150 then if k < 149 then 38 else 184 else if k < 151 then 180 else 124
            else
              if k < 156 then
                if k < 154 then if k < 153 then 17 else 68 else if k < 155 then 146 else 217
              else
                if k < 158 then if k < 157 then 35 else 32 else if k < 159 then 137 else 46
        else
          if k < 176 then
            if k < 168 then
              if k < 164 then
                if k < 162 then if k < 161 then 55 else 63 else if k < 163 then 209 else 91
              else
                if k < 166 then if k < 165 then 149 else 188 else if k < 167 then 207 else 205
            else
              if k < 172 then
                if k < 170 then if k < 169 then 144 else 135 else if k < 171 then 151 else 178
              else
                if k < 174 then if k < 173 then 220 else 252 else if k < 175 then 190 else 97
          else
            if k < 184 then
              if k < 180 then
                if k < 178 then if k < 177 then 242 else 86 else if k < 179 then 211 else 171
              else
                if k < 182 then if k < 181 then 20 else 42 else if k < 183 then 93 else 158
            else
              if k < 188 then
                if k < 186 then if k < 185 then 132 else 60 else if k < 187 then 57 else 83
              else
                if k < 190 then if k < 189 then 71 else 109 else if k < 191 then 65 else 162
      else
        if k < 224 then
          if k < 208 then
            if k < 200 then
              if k < 196 then
                if k < 194 then if k < 193 then 31 else 45 else if k < 195 then 67 else 216
              else
                if k < 198 then if k < 197 then 183 else 123 else if k < 199 then 164 else 118
            else
              if k < 204 then
                if k < 202 then if k < 201 then 196 else 23 else if k < 203 then 73 else 236
              else
                if k < 206 then if k < 205 then 127 else 12 else if k < 207 then 111 else 246
          else
            if k < 216 then
              if k < 212 then
                if k < 210 then if k < 209 then 108 else 161 else if k < 211 then 59 else 82
              else
                if k < 214 then if k < 213 then 41 else 157 else if k < 215 then 85 else 170
            else
              if k < 220 then
                if k < 218 then if k < 217 then 251 else 96 else if k < 219 then 134 else 177
              else
                if k < 222 then if k < 221 then 187 else 204 else if k < 223 then 62 else 90
        else
          if k < 240 then
            if k < 232 then
              if k < 228 then
                if k < 226 then if k < 225 then 203 else 89 else if k < 227 then 95 else 176
              else
                if k < 230 then if k < 229 then 156 else 169 else if k < 231 then 160 else 81
            else
              if k < 236 then
                if k < 234 then if k < 233 then 11 else 245 else if k < 235 then 22 else 235
              else
                if k < 238 then if k < 237 then 122 else 117 else if k < 239 then 44 else 215
          else
            if k < 248 then
              if k < 244 then
                if k < 242 then if k < 241 then 79 else 174 else if k < 243 then 213 else 233
              else
                if k < 246 then if k < 245 then 230 else 231 else if k < 247 then 173 else 232
            else
              if k < 252 then
                if k < 250 then if k < 249 then 116 else 214 else if k < 251 then 244 else 234
              else
                if k < 254 then if k < 253 then 168 else 80 else if k < 255 then 88 else 175
  }

  function GfExp(k: Byte): Byte
  {
    if k < 128 then
      if k < 64 then
        if k < 32 then
          if k < 16 then
            if k < 8 then
              if k < 4 then
                if k < 2 then if k < 1 then 1 else 2 else if k < 3 then 4 else 8
              else
                if k < 6 then if k < 5 then 16 else 32 else if k < 7 then 64 else 128
            else
              if k < 12 then
                if k < 10 then if k < 9 then 29 else 58 else if k < 11 then 116 else 232
              else
                if k < 14 then if k < 13 then 205 else 135 else if k < 15 then 19 else 38
          else
            if k < 24 then
              if k < 20 then
                if k < 18 then if k < 17 then 76 else 152 else if k < 19 then 45 else 90
              else
                if k < 22 then if k < 21 then 180 else 117 else if k < 23 then 234 else 201
            else
              if k < 28 then
                if k < 26 then if k < 25 then 143 else 3 else if k < 27 then 6 else 12
              else
                if k < 30 then if k < 29 then 24 else 48 else if k < 31 then 96 else 192
        else
          if k < 48 then
            if k < 40 then
              if k < 36 then
                if k < 34 then if k < 33 then 157 else 39 else if k < 35 then 78 else 156
              else
                if k < 38 then if k < 37 then 37 else 74 else if k < 39 then 148 else 53
            else
              if k < 44 then
                if k < 42 then if k < 41 then 106 else 212 else if k < 43 then 181 else 119
              else
                if k < 46 then if k < 45 then 238 else 193 else if k < 47 then 159 else 35
          else
            if k < 56 then
              if k < 52 then
                if k < 50 then if k < 49 then 70 else 140 else if k < 51 then 5 else 10
              else
                if k < 54 then if k < 53 then 20 else 40 else if k < 55 then 80 else 160
            else
              if k < 60 then
                if k < 58 then if k < 57 then 93 else 186 else if k < 59 then 105 else 210
              else
                if k < 62 then if k < 61 then 185 else 111 else if k < 63 then 222 else 161
      else
        if k < 96 then
          if k < 80 then
            if k < 72 then
              if k < 68 then
                if k < 66 then if k < 65 then 95 else 190 else if k < 67 then 97 else 194
              else
                if k < 70 then if k < 69 then 153 else 47 else if k < 71 then 94 else 188
            else
              if k < 76 then
                if k < 74 then if k < 73 then 101 else 202 else if k < 75 then 137 else 15
              else
                if k < 78 then if k < 77 then 30 else 60 else if k < 79 then 120 else 240
          else
            if k < 88 then
              if k < 84 then
                if k < 82 then if k < 81 then 253 else 231 else if k < 83 then 211 else 187
              else
                if k < 86 then if k < 85 then 107 else 214 else if k < 87 then 177 else 127
            else
              if k < 92 then
                if k < 90 then if k < 89 then 254 else 225 else if k < 91 then 223 else 163
              else
                if k < 94 then if k < 93 then 91 else 182 else if k < 95 then 113 else 226
        else
          if k < 112 then
            if k < 104 then
              if k < 100 then
                if k < 98 then if k < 97 then 217 else 175 else if k < 99 then 67 else 134
              else
                if k < 102 then if k < 101 then 17 else 34 else if k < 103 then 68 else 136
            else
              if k < 108 then
                if k < 106 then if k < 105 then 13 else 26 else if k < 107 then 52 else 104
              else
                if k < 110 then if k < 109 then 208 else 189 else if k < 111 then 103 else 206
          else
            if k < 120 then
              if k < 116 then
                if k < 114 then if k < 113 then 129 else 31 else if k < 115 then 62 else 124
              else
                if k < 118 then if k < 117 then 248 else 237 else if k < 119 then 199 else 147
            else
              if k < 124 then
                if k < 122 then if k < 121 then 59 else 118 else if k < 123 then 236 else 197
              else
                if k < 126 then if k < 125 then 151 else 51 else if k < 127 then 102 else 204
    else
      if k < 192 then
        if k < 160 then
          if k < 144 then
            if k < 136 then
              if k < 132 then
                if k < 130 then if k < 129 then 133 else 23 else if k < 131 then 46 else 92
              else
                if k < 134 then if k < 133 then 184 else 109 else if k < 135 then 218 else 169
            else
              if k < 140 then
                if k < 138 then if k < 137 then 79 else 158 else if k < 139 then 33 else 66
              else
                if k < 142 then if k < 141 then 132 else 21 else if k < 143 then 42 else 84
          else
            if k < 152 then
              if k < 148 then
                if k < 146 then if k < 145 then 168 else 77 else if k < 147 then 154 else 41
              else
                if k < 150 then if k < 149 then 82 else 164 else if k < 151 then 85 else 170
            else
              if k < 156 then
                if k < 154 then if k < 153 then 73 else 146 else if k < 155 then 57 else 114
              else
                if k < 158 then if k < 157 then 228 else 213 else if k < 159 then 183 else 115
        else
          if k < 176 then
            if k < 168 then
              if k < 164 then
                if k < 162 then if k < 161 then 230 else 209 else if k < 163 then 191 else 99
              else
                if k < 166 then if k < 165 then 198 else 145 else if k < 167 then 63 else 126
            else
              if k < 172 then
                if k < 170 then if k < 169 then 252 else 229 else if k < 171 then 215 else 179
              else
                if k < 174 then if k < 173 then 123 else 246 else if k < 175 then 241 else 255
          else
            if k < 184 then
              if k < 180 then
                if k < 178 then if k < 177 then 227 else 219 else if k < 179 then 171 else 75
              else
                if k < 182 then if k < 181 then 150 else 49 else if k < 183 then 98 else 196
            else
              if k < 188 then
                if k < 186 then if k < 185 then 149 else 55 else if k < 187 then 110 else 220
              else
                if k < 190 then if k < 189 then 165 else 87 else if k < 191 then 174 else 65
      else
        if k < 224 then
          if k < 208 then
            if k < 200 then
              if k < 196 then
                if k < 194 then if k < 193 then 130 else 25 else if k < 195 then 50 else 100
              else
                if k < 198 then if k < 197 then 200 else 141 else if k < 199 then 7 else 14
            else
              if k < 204 then
                if k < 202 then if k < 201 then 28 else 56 else if k < 203 then 112 else 224
              else
                if k < 206 then if k < 205 then 221 else 167 else if k < 207 then 83 else 166
          else
            if k < 216 then
              if k < 212 then
                if k < 210 then if k < 209 then 81 else 162 else if k < 211 then 89 else 178
              else
                if k < 214 then if k < 213 then 121 else 242 else if k < 215 then 249 else 239
            else
              if k < 220 then
                if k < 218 then if k < 217 then 195 else 155 else if k < 219 then 43 else 86
              else
                if k < 222 then if k < 221 then 172 else 69 else if k < 223 then 138 else 9
        else
          if k < 240 then
            if k < 232 then
              if k < 228 then
                if k < 226 then if k < 225 then 18 else 36 else if k < 227 then 72 else 144
              else
                if k < 230 then if k < 229 then 61 else 122 else if k < 231 then 244 else 245
            else
              if k < 236 then
                if k < 234 then if k < 233 then 247 else 243 else if k < 235 then 251 else 235
              else
                if k < 238 then if k < 237 then 203 else 139 else if k < 239 then 11 else 22
          else
            if k < 248 then
              if k < 244 then
                if k < 242 then if k < 241 then 44 else 88 else if k < 243 then 176 else 125
              else
                if k < 246 then if k < 245 then 250 else 233 else if k < 247 then 207 else 131
            else
              if k < 252 then
                if k < 250 then if k < 249 then 27 else 54 else if k < 251 then 108 else 216
              else
                if k < 254 then if k < 253 then 173 else 71 else if k < 255 then 142 else 1
  }
  function GfMul(a: Byte, b: Byte): Byte
  {
    if a == 0 || b == 0 then 0 else GfExp((GfLog(a) + GfLog(b)) % 255)
  }

  // ---------------------------------------------------------------- what the tables hold

  // Multiplication by x modulo x^8 + x^4 + x^3 + x^2 + 1.
  function Xtime(a: Byte): Byte
  {
    if a < 128 then 2 * a
    else
      XtimeReduces(a);
      Xor(2 * a, 0x11d)
  }

  // One more low bit on each side.
  lemma XorAppend(h: nat, g: nat, rest: nat, d: nat)
    requires Xor(h, g) == rest && d < 2
    ensures Xor(2 * h + d, 2 * g) == 2 * rest + d
    ensures Xor(2 * h + d, 2 * g + 1) == 2 * rest + (1 - d)
  {
    hide Xor;
    XorUnfold(2 * h + d, 2 * g, h, g);
    XorUnfold(2 * h + d, 2 * g + 1, h, g);
  }

  lemma XorUnfold(x: nat, y: nat, h: nat, g: nat)
    requires h == x / 2 && g == y / 2
    ensures Xor(x, y) == (x % 2 + y % 2) % 2 + 2 * Xor(h, g)
  {
  }

  lemma DropEight(q: nat)
    requires 8 <= q < 16
    ensures Xor(q, 8) == q - 8
  {
    hide Xor;
    var h := q / 2;
    var g := h / 2;
    XorZeroIff(1, 1);
    XorAppend(1, 1, 0, g % 2);
    XorAppend(g, 2, g - 2, h % 2);
    XorAppend(h, 4, h - 4, q % 2);
  }

  // The reduction flips bits 0, 2, 3 and 4 of what is left after the carry.
  function Reduced(a: Byte): int
    requires a >= 128
  {
    2 * a - 256 + 29 - 8 * ((a / 2) % 8)
  }

  lemma LowThree(h: nat)
    ensures h % 8 == h % 2 + 2 * ((h / 2) % 2) + 4 * ((h / 2 / 2) % 2)
  {
    var a := h / 2;
    var b := a / 2;
    assert h == 8 * (b / 2) + (h % 2 + 2 * (a % 2) + 4 * (b % 2));
    DivModUnique(h, 8, b / 2, h % 2 + 2 * (a % 2) + 4 * (b % 2));
  }

  lemma ReduceUpper(g: nat)
    requires 32 <= g < 64
    ensures Xor(g, 35) == g - 32 + 3 - 2 * (g % 2) - 4 * ((g / 2) % 2)
  {
    hide Xor;
    var f := g / 2;
    var q := f / 2;
    DropEight(q);
    XorAppend(q, 8, q - 8, f % 2);
    XorAppend(f, 17, f - 16 + 1 - 2 * (f % 2), g % 2);
  }

  lemma XtimeReduces(a: Byte)
    requires a >= 128
    ensures Xor(2 * a, 0x11d) == Reduced(a)
  {
    hide Xor;
    var h := a / 2;
    var g := h / 2;
    var f := g / 2;
    ReduceUpper(g);
    var y := g - 32 + 3 - 2 * (g % 2) - 4 * (f % 2);
    XorAppend(g, 35, y, h % 2);
    var z := 2 * y + (1 - h % 2);
    XorAppend(h, 71, z, a % 2);
    XorAppend(a, 142, 2 * z + a % 2, 0);
    LowThree(h);
  }

  function XtimeByParts(a: Byte): int
  {
    if a < 128 then 2 * a else Reduced(a)
  }

  lemma XtimeIsByParts(a: Byte)
    ensures Xtime(a) == XtimeByParts(a)
  {
    if a >= 128 {
      XtimeReduces(a);
    }
  }

  // The tables are the powers of x and their logarithms.
  lemma ExpStepLowest(k: Byte)
    requires k < 32
    ensures GfExp(k + 1) == XtimeByParts(GfExp(k))
  {
  }

  lemma ExpStepLow(k: Byte)
    requires 32 <= k < 64
    ensures GfExp(k + 1) == XtimeByParts(GfExp(k))
  {
  }

  lemma ExpStepMiddle(k: Byte)
    requires 64 <= k < 128
    ensures GfExp(k + 1) == XtimeByParts(GfExp(k))
  {
  }

  lemma ExpStepHigh(k: Byte)
    requires 128 <= k < 192
    ensures GfExp(k + 1) == XtimeByParts(GfExp(k))
  {
  }

  lemma ExpStepTop(k: Byte)
    requires 192 <= k < 255
    ensures GfExp(k + 1) == XtimeByParts(GfExp(k))
  {
  }

  lemma LogExpLowest(a: Byte)
    requires 0 < a < 32
    ensures GfLog(a) < 255 && GfExp(GfLog(a)) == a
  {
  }

  lemma LogExpLow(a: Byte)
    requires 32 <= a < 64
    ensures GfLog(a) < 255 && GfExp(GfLog(a)) == a
  {
  }

  lemma LogExpMiddle(a: Byte)
    requires 64 <= a < 128
    ensures GfLog(a) < 255 && GfExp(GfLog(a)) == a
  {
  }

  lemma LogExpHigh(a: Byte)
    requires 128 <= a < 192
    ensures GfLog(a) < 255 && GfExp(GfLog(a)) == a
  {
  }

  lemma LogExpTop(a: Byte)
    requires 192 <= a
    ensures GfLog(a) < 255 && GfExp(GfLog(a)) == a
  {
  }

  lemma LogExp(a: Byte)
    requires a > 0
    ensures GfLog(a) < 255 && GfExp(GfLog(a)) == a
  {
    hide GfExp, GfLog;
    if a < 32 {
      LogExpLowest(a);
    } else if a < 64 {
      LogExpLow(a);
    } else if a < 128 {
      LogExpMiddle(a);
    } else if a < 192 {
      LogExpHigh(a);
    } else {
      LogExpTop(a);
    }
  }

  lemma ExpLogLowest(k: Byte)
    requires k < 32
    ensures GfLog(GfExp(k)) == k && GfExp(k) > 0
  {
  }

  lemma ExpLogLow(k: Byte)
    requires 32 <= k < 64
    ensures GfLog(GfExp(k)) == k && GfExp(k) > 0
  {
  }

  lemma ExpLogMiddle(k: Byte)
    requires 64 <= k < 128
    ensures GfLog(GfExp(k)) == k && GfExp(k) > 0
  {
  }

  lemma ExpLogHigh(k: Byte)
    requires 128 <= k < 192
    ensures GfLog(GfExp(k)) == k && GfExp(k) > 0
  {
  }

  lemma ExpLogTop(k: Byte)
    requires 192 <= k < 255
    ensures GfLog(GfExp(k)) == k && GfExp(k) > 0
  {
  }

  lemma ExpLog(k: Byte)
    requires k < 255
    ensures GfLog(GfExp(k)) == k && GfExp(k) > 0
  {
    hide GfExp, GfLog;
    if k < 32 {
      ExpLogLowest(k);
    } else if k < 64 {
      ExpLogLow(k);
    } else if k < 128 {
      ExpLogMiddle(k);
    } else if k < 192 {
      ExpLogHigh(k);
    } else {
      ExpLogTop(k);
    }
  }

  lemma ExpWraps()
    ensures GfExp(255) == GfExp(0) == 1
  {
  }

  lemma ExpXtime(k: Byte)
    requires k < 255
    ensures GfExp((k + 1) % 255) == Xtime(GfExp(k))
  {
    hide GfExp;
    XtimeIsByParts(GfExp(k));
    if k < 32 {
      ExpStepLowest(k);
    } else if k < 64 {
      ExpStepLow(k);
    } else if k < 128 {
      ExpStepMiddle(k);
    } else if k < 192 {
      ExpStepHigh(k);
    } else {
      ExpStepTop(k);
      ExpWraps();
    }
  }

  // ---------------------------------------------------------------- multiplying by a power of x

  // `a * x^k`.
  function Shifted(a: Byte, k: nat): Byte
  {
    if k == 0 then a else Xtime(Shifted(a, k - 1))
  }

  lemma NextMod(n: nat)
    ensures (n % 255 + 1) % 255 == (n + 1) % 255
  {
    var q, m := n / 255, n % 255;
    if m == 254 {
      DivModUnique(n + 1, 255, q + 1, 0);
    } else {
      DivModUnique(n + 1, 255, q, m + 1);
    }
  }

  lemma {:induction false} ExpShift(l: Byte, k: nat)
    requires l < 255
    ensures GfExp((l + k) % 255) == Shifted(GfExp(l), k)
  {
    hide GfExp, Xtime;
    if k > 0 {
      ExpShift(l, k - 1);
      var m := (l + k - 1) % 255;
      NextMod(l + k - 1);
      ExpXtime(m);
    }
  }

  lemma MulExp(a: Byte, k: Byte)
    requires k < 255
    ensures GfMul(a, GfExp(k)) == Shifted(a, k)
  {
    hide GfExp, GfLog, Xtime;
    ExpLog(k);
    if a == 0 {
      ShiftedZero(k);
    } else {
      LogExp(a);
      ExpShift(GfLog(a), k);
    }
  }

  lemma XtimeZero(a: Byte)
    ensures Xtime(a) == 0 <==> a == 0
  {
  }

  lemma {:induction false} ShiftedZero(k: nat)
    ensures Shifted(0, k) == 0
  {
    hide Xtime;
    if k > 0 {
      ShiftedZero(k - 1);
      XtimeZero(0);
    }
  }

  lemma {:induction false} ShiftedNonZero(a: Byte, k: nat)
    ensures Shifted(a, k) == 0 <==> a == 0
  {
    hide Xtime;
    if k > 0 {
      ShiftedNonZero(a, k - 1);
      XtimeZero(Shifted(a, k - 1));
    }
  }

  // ---------------------------------------------------------------- linearity

  // The carry of a doubled byte.
  function Carry(a: Byte): nat
  {
    if a < 128 then 0 else 0x11d
  }

  lemma XtimeCarry(a: Byte)
    ensures Xtime(a) == Xor(2 * a, Carry(a))
  {
    XorZero(2 * a);
  }

  lemma CarryLinear(a: Byte, b: Byte)
    ensures Carry(XorByte(a, b)) == Xor(Carry(a), Carry(b))
  {
    XorTopBit(a, b, 7);
    assert Pow2(7) == 128;
    XorZero(Carry(a));
    XorZero(Carry(b));
    XorZeroIff(0x11d, 0x11d);
  }

  lemma XtimeLinear(a: Byte, b: Byte)
    ensures Xtime(XorByte(a, b)) == XorByte(Xtime(a), Xtime(b))
  {
    hide Xtime, Xor, Carry;
    XtimeCarry(a);
    XtimeCarry(b);
    XtimeCarry(XorByte(a, b));
    CarryLinear(a, b);
    XorDouble(a, b);
    XorExchange(2 * a, 2 * b, Carry(a), Carry(b));
  }

  lemma {:induction false} ShiftedLinear(a: Byte, b: Byte, k: nat)
    ensures Shifted(XorByte(a, b), k) == XorByte(Shifted(a, k), Shifted(b, k))
  {
    hide Xtime, XorByte;
    if k > 0 {
      ShiftedLinear(a, b, k - 1);
      XtimeLinear(Shifted(a, k - 1), Shifted(b, k - 1));
    }
  }

  // Multiplication distributes over exclusive or and has no zero divisors.
  lemma MulLinear(a: Byte, b: Byte, c: Byte)
    ensures GfMul(XorByte(a, b), c) == XorByte(GfMul(a, c), GfMul(b, c))
  {
    hide GfExp, GfLog, Shifted, Xor;
    if c == 0 {
      XorZero(0);
    } else {
      var k := GfLog(c);
      LogExp(c);
      MulExp(a, k);
      MulExp(b, k);
      MulExp(XorByte(a, b), k);
      ShiftedLinear(a, b, k);
    }
  }

  lemma MulNonZero(a: Byte, c: Byte)
    ensures GfMul(a, c) == 0 <==> a == 0 || c == 0
  {
    hide GfExp, GfLog, Shifted;
    if c > 0 {
      LogExp(c);
      MulExp(a, GfLog(c));
      ShiftedNonZero(a, GfLog(c));
    }
  }

  lemma MulSymmetric(a: Byte, b: Byte)
    ensures GfMul(a, b) == GfMul(b, a)
  {
  }

  lemma MulOne(a: Byte)
    ensures GfMul(a, 1) == a
  {
    hide GfExp, GfLog, Xtime;
    ExpWraps();
    MulExp(a, 0);
  }

  // ---------------------------------------------------------------- the polynomial product

  // The product of two polynomials, one coefficient of the second at a time.
  function PolynomialProduct(a: Byte, b: Byte): Byte
    decreases b
  {
    if b == 0 then 0
    else XorByte(if b % 2 == 1 then a else 0, PolynomialProduct(Xtime(a), b / 2))
  }

  lemma {:induction false} ShiftedXtime(a: Byte, k: nat)
    ensures Shifted(Xtime(a), k) == Shifted(a, k + 1)
  {
    hide Xtime;
    if k > 0 {
      ShiftedXtime(a, k - 1);
    }
  }

  lemma {:induction false} ShiftedPeriod(a: Byte)
    ensures Shifted(a, 255) == a
  {
    hide GfExp, GfLog, Shifted;
    if a == 0 {
      ShiftedZero(255);
    } else {
      LogExp(a);
      ExpShift(GfLog(a), 255);
    }
  }

  // x can be moved from one factor to the other.
  lemma MulXtime(a: Byte, c: Byte)
    ensures GfMul(Xtime(a), c) == GfMul(a, Xtime(c))
  {
    hide GfExp, GfLog, Xtime, Shifted;
    XtimeZero(a);
    XtimeZero(c);
    if a > 0 && c > 0 {
      var k := GfLog(c);
      LogExp(c);
      MulExp(Xtime(a), k);
      ShiftedXtime(a, k);
      ExpXtime(k);
      MulExp(a, (k + 1) % 255);
      ShiftedPeriod(a);
      assert Shifted(a, 0) == a by {
        ShiftedStart(a);
      }
    }
  }

  lemma ShiftedStart(a: Byte)
    ensures Shifted(a, 0) == a
  {
  }

  lemma SplitLowBit(b: Byte)
    ensures b < 128 ==> Xtime(b) == 2 * b
    ensures b == XorByte(b % 2, 2 * (b / 2))
  {
    XorZero(b / 2);
    XorAppend(0, b / 2, b / 2, b % 2);
  }

  // The table product is the product of polynomials modulo x^8 + x^4 + x^3 + x^2 + 1.
  lemma {:induction false} MulIsPolynomialProduct(a: Byte, b: Byte)
    ensures GfMul(a, b) == PolynomialProduct(a, b)
    decreases b
  {
    hide GfExp, GfLog, Xtime, XorByte;
    if b > 0 {
      var low, high := b % 2, b / 2;
      SplitLowBit(b);
      SplitLowBit(high);
      MulSymmetric(a, b);
      MulLinear(low, 2 * high, a);
      MulSymmetric(low, a);
      MulSymmetric(2 * high, a);
      MulOne(a);
      MulXtime(a, high);
      MulIsPolynomialProduct(Xtime(a), high);
    }
  }
}
