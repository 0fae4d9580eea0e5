/** The table that the hash functions walk. */
module HashMap {

  /** The element of a row of sixteen that the low half of `x` says. */
  function Pick(x: bv8, a0: bv8, a1: bv8, a2: bv8, a3: bv8, a4: bv8, a5: bv8, a6: bv8, a7: bv8,
                a8: bv8, a9: bv8, a10: bv8, a11: bv8, a12: bv8, a13: bv8, a14: bv8, a15: bv8): bv8
  {
    if x & 8 == 0 then Among(x, a0, a1, a2, a3, a4, a5, a6, a7) else Among(x, a8, a9, a10, a11, a12, a13, a14, a15)
  }

  function Among(x: bv8, a0: bv8, a1: bv8, a2: bv8, a3: bv8, a4: bv8, a5: bv8, a6: bv8, a7: bv8): bv8 {
    if x & 4 == 0 then
      if x & 2 == 0 then (if x & 1 == 0 then a0 else a1) else (if x & 1 == 0 then a2 else a3)
    else
      if x & 2 == 0 then (if x & 1 == 0 then a4 else a5) else (if x & 1 == 0 then a6 else a7)
  }

  /** A shuffle of the byte values. */
  function Map(x: bv8): bv8 {
    if x < 128 then (if x < 64 then Map0(x) else Map1(x)) else (if x < 192 then Map2(x) else Map3(x))
  }

  function Map0(x: bv8): bv8 {
    if x < 32 then
      if x < 16 then Pick(x, 57, 141, 117, 50, 138, 42, 178, 102, 27, 167, 192, 69, 187, 179, 143, 101)
      else Pick(x, 174, 44, 30, 129, 105, 108, 223, 18, 64, 116, 145, 229, 232, 214, 9, 132)
    else
      if x < 48 then Pick(x, 150, 100, 95, 37, 84, 122, 112, 202, 59, 165, 21, 49, 38, 46, 238, 6)
      else Pick(x, 39, 113, 40, 135, 32, 189, 66, 177, 221, 114, 247, 180, 144, 63, 160, 125)
  }

  function Map1(x: bv8): bv8 {
    if x < 96 then
      if x < 80 then Pick(x, 131, 219, 244, 47, 10, 55, 87, 111, 94, 210, 121, 156, 29, 34, 212, 226)
      else Pick(x, 249, 159, 155, 76, 235, 231, 98, 197, 43, 236, 77, 1, 54, 151, 204, 147)
    else
      if x < 112 then Pick(x, 211, 130, 216, 251, 5, 220, 52, 28, 8, 222, 7, 89, 81, 71, 190, 120)
      else Pick(x, 104, 209, 96, 255, 0, 67, 188, 215, 248, 161, 118, 23, 119, 217, 88, 207)
  }

  function Map2(x: bv8): bv8 {
    if x < 160 then
      if x < 144 then Pick(x, 140, 234, 92, 36, 162, 139, 171, 17, 56, 4, 157, 80, 191, 250, 241, 126)
      else Pick(x, 239, 163, 148, 205, 74, 153, 60, 166, 93, 83, 41, 61, 86, 109, 173, 146)
    else
      if x < 176 then Pick(x, 199, 72, 227, 106, 103, 48, 242, 99, 12, 170, 134, 73, 233, 184, 91, 16)
      else Pick(x, 2, 65, 245, 136, 194, 154, 3, 196, 243, 158, 169, 13, 198, 127, 224, 183)
  }

  function Map3(x: bv8): bv8 {
    if x < 224 then
      if x < 208 then Pick(x, 90, 254, 200, 97, 14, 181, 237, 201, 228, 185, 110, 193, 164, 253, 175, 82)
      else Pick(x, 149, 53, 252, 213, 182, 79, 68, 11, 20, 33, 176, 123, 51, 152, 85, 25)
    else
      if x < 240 then Pick(x, 218, 186, 75, 62, 137, 35, 203, 133, 240, 115, 26, 78, 124, 246, 31, 58)
      else Pick(x, 19, 107, 24, 225, 142, 230, 128, 15, 208, 22, 168, 172, 195, 45, 206, 70)
  }

  /** The places of the byte values in the table. */
  function Origin(x: bv8): bv8 {
    if x < 128 then (if x < 64 then Origin0(x) else Origin1(x)) else (if x < 192 then Origin2(x) else Origin3(x))
  }

  function Origin0(x: bv8): bv8 {
    if x < 32 then
      if x < 16 then Pick(x, 116, 91, 176, 182, 137, 100, 47, 106, 104, 30, 68, 215, 168, 187, 196, 247)
      else Pick(x, 175, 135, 23, 240, 216, 42, 249, 123, 242, 223, 234, 8, 103, 76, 18, 238)
    else
      if x < 48 then Pick(x, 52, 217, 77, 229, 131, 35, 44, 48, 50, 154, 5, 88, 17, 253, 45, 67)
      else Pick(x, 165, 43, 3, 220, 102, 209, 92, 69, 136, 0, 239, 40, 150, 155, 227, 61)
  }

  function Origin1(x: bv8): bv8 {
    if x < 96 then
      if x < 80 then Pick(x, 24, 177, 54, 117, 214, 11, 255, 109, 161, 171, 148, 226, 83, 90, 235, 213)
      else Pick(x, 139, 108, 207, 153, 36, 222, 156, 70, 126, 107, 192, 174, 130, 152, 72, 34)
    else
      if x < 112 then Pick(x, 114, 195, 86, 167, 33, 15, 7, 164, 112, 20, 163, 241, 21, 157, 202, 71)
      else Pick(x, 38, 49, 57, 233, 25, 2, 122, 124, 111, 74, 37, 219, 236, 63, 143, 189)
  }

  function Origin2(x: bv8): bv8 {
    if x < 160 then
      if x < 144 then Pick(x, 246, 19, 97, 64, 31, 231, 170, 51, 179, 228, 4, 133, 128, 1, 244, 14)
      else Pick(x, 60, 26, 159, 95, 146, 208, 32, 93, 221, 149, 181, 82, 75, 138, 185, 81)
    else
      if x < 176 then Pick(x, 62, 121, 132, 145, 204, 41, 151, 9, 250, 186, 169, 134, 251, 158, 16, 206)
      else Pick(x, 218, 55, 6, 13, 59, 197, 212, 191, 173, 201, 225, 12, 118, 53, 110, 140)
  }

  function Origin3(x: bv8): bv8 {
    if x < 224 then
      if x < 208 then Pick(x, 10, 203, 180, 252, 183, 87, 188, 160, 194, 199, 39, 230, 94, 147, 254, 127)
      else Pick(x, 248, 113, 73, 96, 78, 211, 29, 119, 98, 125, 224, 65, 101, 56, 105, 22)
    else
      if x < 240 then Pick(x, 190, 243, 79, 162, 200, 27, 245, 85, 28, 172, 129, 84, 89, 198, 46, 144)
      else Pick(x, 232, 142, 166, 184, 66, 178, 237, 58, 120, 80, 141, 99, 210, 205, 193, 115)
  }

  /** Every byte value has a place in the table... */
  lemma {:induction false} MapHasOrigin(x: bv8)
    ensures Map(Origin(x)) == x
  {
    if x < 64 { HasOrigin0(x); } else if x < 128 { HasOrigin1(x); }
    else if x < 192 { HasOrigin2(x); } else { HasOrigin3(x); }
  }

  /** ...and one only. */
  lemma {:induction false} OriginOfMap(x: bv8)
    ensures Origin(Map(x)) == x
  {
    if x < 64 { OfMap0(x); } else if x < 128 { OfMap1(x); }
    else if x < 192 { OfMap2(x); } else { OfMap3(x); }
  }

  // Both four rows at a time.

  lemma {:induction false} HasOrigin0(x: bv8)
    requires x < 64
    ensures Map(Origin(x)) == x
  {
  }

  lemma {:induction false} HasOrigin1(x: bv8)
    requires 64 <= x < 128
    ensures Map(Origin(x)) == x
  {
  }

  lemma {:induction false} HasOrigin2(x: bv8)
    requires 128 <= x < 192
    ensures Map(Origin(x)) == x
  {
  }

  lemma {:induction false} HasOrigin3(x: bv8)
    requires 192 <= x
    ensures Map(Origin(x)) == x
  {
  }

  lemma {:induction false} OfMap0(x: bv8)
    requires x < 64
    ensures Origin(Map(x)) == x
  {
  }

  lemma {:induction false} OfMap1(x: bv8)
    requires 64 <= x < 128
    ensures Origin(Map(x)) == x
  {
  }

  lemma {:induction false} OfMap2(x: bv8)
    requires 128 <= x < 192
    ensures Origin(Map(x)) == x
  {
  }

  lemma {:induction false} OfMap3(x: bv8)
    requires 192 <= x
    ensures Origin(Map(x)) == x
  {
  }
}
