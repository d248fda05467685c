// Up to five wrong bits of a message always change its checksum, and up to four are never taken for a single one.
module CrcDistance {
  import opened Bits
  import opened Crc
  import opened CrcDamage
  import opened CrcOrder
  import opened CrcParity
  import opened ErrorPatterns
  import opened ErrorTable
  import opened ErrorCorrection
  import opened Corrector

  // ---------------------------------------------------------------- four powers of x

  // Whether the terms x^23 of the four powers x^(j + t), x^(k + t), x^(l + t) and x^t cancel.
  predicate Even(j: nat, k: nat, l: nat, t: nat) {
    (Top(j + t) != Top(k + t)) == (Top(l + t) != (t == 23))
  }

  predicate AllEven(j: nat, k: nat, l: nat) {
    && Even(j, k, l, 6) && Even(j, k, l, 7) && Even(j, k, l, 8)
    && Even(j, k, l, 9) && Even(j, k, l, 10) && Even(j, k, l, 11)
    && Even(j, k, l, 12) && Even(j, k, l, 13) && Even(j, k, l, 14)
    && Even(j, k, l, 15) && Even(j, k, l, 16) && Even(j, k, l, 17)
    && Even(j, k, l, 18) && Even(j, k, l, 19) && Even(j, k, l, 20)
    && Even(j, k, l, 21) && Even(j, k, l, 22) && Even(j, k, l, 23)
  }

  // The exponents whose power has the term x^23 after some more multiplications by x.
  lemma Tops6(e: nat) returns (d6: bool, d7: bool, d8: bool)
    requires e <= 106
    ensures d6 == Top(e + 6)
    ensures d6 == (e == 17 || e == 18 || e == 30 || e == 33 || e == 38 || e == 40 || e == 41 || e == 44 || e == 45 || e == 46
               || e == 47 || e == 48 || e == 56 || e == 58 || e == 62 || e == 63 || e == 64 || e == 65 || e == 66 || e == 68
               || e == 69 || e == 72 || e == 75 || e == 81 || e == 82 || e == 84 || e == 85 || e == 87 || e == 90 || e == 92
               || e == 93 || e == 94 || e == 99 || e == 100 || e == 101 || e == 103)
    ensures d7 == Top(e + 7)
    ensures d7 == (e == 16 || e == 17 || e == 29 || e == 32 || e == 37 || e == 39 || e == 40 || e == 43 || e == 44 || e == 45
               || e == 46 || e == 47 || e == 55 || e == 57 || e == 61 || e == 62 || e == 63 || e == 64 || e == 65 || e == 67
               || e == 68 || e == 71 || e == 74 || e == 80 || e == 81 || e == 83 || e == 84 || e == 86 || e == 89 || e == 91
               || e == 92 || e == 93 || e == 98 || e == 99 || e == 100 || e == 102 || e == 106)
    ensures d8 == Top(e + 8)
    ensures d8 == (e == 15 || e == 16 || e == 28 || e == 31 || e == 36 || e == 38 || e == 39 || e == 42 || e == 43 || e == 44
               || e == 45 || e == 46 || e == 54 || e == 56 || e == 60 || e == 61 || e == 62 || e == 63 || e == 64 || e == 66
               || e == 67 || e == 70 || e == 73 || e == 79 || e == 80 || e == 82 || e == 83 || e == 85 || e == 88 || e == 90
               || e == 91 || e == 92 || e == 97 || e == 98 || e == 99 || e == 101 || e == 105)
  {
    d6, d7, d8 := Top(e + 6), Top(e + 7), Top(e + 8);
  }

  lemma Tops9(e: nat) returns (d9: bool, d10: bool, d11: bool)
    requires e <= 106
    ensures d9 == Top(e + 9)
    ensures d9 == (e == 14 || e == 15 || e == 27 || e == 30 || e == 35 || e == 37 || e == 38 || e == 41 || e == 42 || e == 43
               || e == 44 || e == 45 || e == 53 || e == 55 || e == 59 || e == 60 || e == 61 || e == 62 || e == 63 || e == 65
               || e == 66 || e == 69 || e == 72 || e == 78 || e == 79 || e == 81 || e == 82 || e == 84 || e == 87 || e == 89
               || e == 90 || e == 91 || e == 96 || e == 97 || e == 98 || e == 100 || e == 104)
    ensures d10 == Top(e + 10)
    ensures d10 == (e == 13 || e == 14 || e == 26 || e == 29 || e == 34 || e == 36 || e == 37 || e == 40 || e == 41 || e == 42
               || e == 43 || e == 44 || e == 52 || e == 54 || e == 58 || e == 59 || e == 60 || e == 61 || e == 62 || e == 64
               || e == 65 || e == 68 || e == 71 || e == 77 || e == 78 || e == 80 || e == 81 || e == 83 || e == 86 || e == 88
               || e == 89 || e == 90 || e == 95 || e == 96 || e == 97 || e == 99 || e == 103 || e == 106)
    ensures d11 == Top(e + 11)
    ensures d11 == (e == 12 || e == 13 || e == 25 || e == 28 || e == 33 || e == 35 || e == 36 || e == 39 || e == 40 || e == 41
               || e == 42 || e == 43 || e == 51 || e == 53 || e == 57 || e == 58 || e == 59 || e == 60 || e == 61 || e == 63
               || e == 64 || e == 67 || e == 70 || e == 76 || e == 77 || e == 79 || e == 80 || e == 82 || e == 85 || e == 87
               || e == 88 || e == 89 || e == 94 || e == 95 || e == 96 || e == 98 || e == 102 || e == 105)
  {
    d9, d10, d11 := Top(e + 9), Top(e + 10), Top(e + 11);
  }

  lemma Tops12(e: nat) returns (d12: bool, d13: bool, d14: bool)
    requires e <= 106
    ensures d12 == Top(e + 12)
    ensures d12 == (e == 11 || e == 12 || e == 24 || e == 27 || e == 32 || e == 34 || e == 35 || e == 38 || e == 39 || e == 40
               || e == 41 || e == 42 || e == 50 || e == 52 || e == 56 || e == 57 || e == 58 || e == 59 || e == 60 || e == 62
               || e == 63 || e == 66 || e == 69 || e == 75 || e == 76 || e == 78 || e == 79 || e == 81 || e == 84 || e == 86
               || e == 87 || e == 88 || e == 93 || e == 94 || e == 95 || e == 97 || e == 101 || e == 104 || e == 106)
    ensures d13 == Top(e + 13)
    ensures d13 == (e == 10 || e == 11 || e == 23 || e == 26 || e == 31 || e == 33 || e == 34 || e == 37 || e == 38 || e == 39
               || e == 40 || e == 41 || e == 49 || e == 51 || e == 55 || e == 56 || e == 57 || e == 58 || e == 59 || e == 61
               || e == 62 || e == 65 || e == 68 || e == 74 || e == 75 || e == 77 || e == 78 || e == 80 || e == 83 || e == 85
               || e == 86 || e == 87 || e == 92 || e == 93 || e == 94 || e == 96 || e == 100 || e == 103 || e == 105 || e == 106)
    ensures d14 == Top(e + 14)
    ensures d14 == (e == 9 || e == 10 || e == 22 || e == 25 || e == 30 || e == 32 || e == 33 || e == 36 || e == 37 || e == 38
               || e == 39 || e == 40 || e == 48 || e == 50 || e == 54 || e == 55 || e == 56 || e == 57 || e == 58 || e == 60
               || e == 61 || e == 64 || e == 67 || e == 73 || e == 74 || e == 76 || e == 77 || e == 79 || e == 82 || e == 84
               || e == 85 || e == 86 || e == 91 || e == 92 || e == 93 || e == 95 || e == 99 || e == 102 || e == 104 || e == 105)
  {
    d12, d13, d14 := Top(e + 12), Top(e + 13), Top(e + 14);
  }

  lemma Tops15(e: nat) returns (d15: bool, d16: bool, d17: bool)
    requires e <= 106
    ensures d15 == Top(e + 15)
    ensures d15 == (e == 8 || e == 9 || e == 21 || e == 24 || e == 29 || e == 31 || e == 32 || e == 35 || e == 36 || e == 37
               || e == 38 || e == 39 || e == 47 || e == 49 || e == 53 || e == 54 || e == 55 || e == 56 || e == 57 || e == 59
               || e == 60 || e == 63 || e == 66 || e == 72 || e == 73 || e == 75 || e == 76 || e == 78 || e == 81 || e == 83
               || e == 84 || e == 85 || e == 90 || e == 91 || e == 92 || e == 94 || e == 98 || e == 101 || e == 103 || e == 104
               || e == 106)
    ensures d16 == Top(e + 16)
    ensures d16 == (e == 7 || e == 8 || e == 20 || e == 23 || e == 28 || e == 30 || e == 31 || e == 34 || e == 35 || e == 36
               || e == 37 || e == 38 || e == 46 || e == 48 || e == 52 || e == 53 || e == 54 || e == 55 || e == 56 || e == 58
               || e == 59 || e == 62 || e == 65 || e == 71 || e == 72 || e == 74 || e == 75 || e == 77 || e == 80 || e == 82
               || e == 83 || e == 84 || e == 89 || e == 90 || e == 91 || e == 93 || e == 97 || e == 100 || e == 102 || e == 103
               || e == 105)
    ensures d17 == Top(e + 17)
    ensures d17 == (e == 6 || e == 7 || e == 19 || e == 22 || e == 27 || e == 29 || e == 30 || e == 33 || e == 34 || e == 35
               || e == 36 || e == 37 || e == 45 || e == 47 || e == 51 || e == 52 || e == 53 || e == 54 || e == 55 || e == 57
               || e == 58 || e == 61 || e == 64 || e == 70 || e == 71 || e == 73 || e == 74 || e == 76 || e == 79 || e == 81
               || e == 82 || e == 83 || e == 88 || e == 89 || e == 90 || e == 92 || e == 96 || e == 99 || e == 101 || e == 102
               || e == 104 || e == 106)
  {
    d15, d16, d17 := Top(e + 15), Top(e + 16), Top(e + 17);
  }

  lemma Tops18(e: nat) returns (d18: bool, d19: bool, d20: bool)
    requires e <= 106
    ensures d18 == Top(e + 18)
    ensures d18 == (e == 5 || e == 6 || e == 18 || e == 21 || e == 26 || e == 28 || e == 29 || e == 32 || e == 33 || e == 34
               || e == 35 || e == 36 || e == 44 || e == 46 || e == 50 || e == 51 || e == 52 || e == 53 || e == 54 || e == 56
               || e == 57 || e == 60 || e == 63 || e == 69 || e == 70 || e == 72 || e == 73 || e == 75 || e == 78 || e == 80
               || e == 81 || e == 82 || e == 87 || e == 88 || e == 89 || e == 91 || e == 95 || e == 98 || e == 100 || e == 101
               || e == 103 || e == 105 || e == 106)
    ensures d19 == Top(e + 19)
    ensures d19 == (e == 4 || e == 5 || e == 17 || e == 20 || e == 25 || e == 27 || e == 28 || e == 31 || e == 32 || e == 33
               || e == 34 || e == 35 || e == 43 || e == 45 || e == 49 || e == 50 || e == 51 || e == 52 || e == 53 || e == 55
               || e == 56 || e == 59 || e == 62 || e == 68 || e == 69 || e == 71 || e == 72 || e == 74 || e == 77 || e == 79
               || e == 80 || e == 81 || e == 86 || e == 87 || e == 88 || e == 90 || e == 94 || e == 97 || e == 99 || e == 100
               || e == 102 || e == 104 || e == 105 || e == 106)
    ensures d20 == Top(e + 20)
    ensures d20 == (e == 3 || e == 4 || e == 16 || e == 19 || e == 24 || e == 26 || e == 27 || e == 30 || e == 31 || e == 32
               || e == 33 || e == 34 || e == 42 || e == 44 || e == 48 || e == 49 || e == 50 || e == 51 || e == 52 || e == 54
               || e == 55 || e == 58 || e == 61 || e == 67 || e == 68 || e == 70 || e == 71 || e == 73 || e == 76 || e == 78
               || e == 79 || e == 80 || e == 85 || e == 86 || e == 87 || e == 89 || e == 93 || e == 96 || e == 98 || e == 99
               || e == 101 || e == 103 || e == 104 || e == 105)
  {
    d18, d19, d20 := Top(e + 18), Top(e + 19), Top(e + 20);
  }

  lemma Tops21(e: nat) returns (d21: bool, d22: bool, d23: bool)
    requires e <= 106
    ensures d21 == Top(e + 21)
    ensures d21 == (e == 2 || e == 3 || e == 15 || e == 18 || e == 23 || e == 25 || e == 26 || e == 29 || e == 30 || e == 31
               || e == 32 || e == 33 || e == 41 || e == 43 || e == 47 || e == 48 || e == 49 || e == 50 || e == 51 || e == 53
               || e == 54 || e == 57 || e == 60 || e == 66 || e == 67 || e == 69 || e == 70 || e == 72 || e == 75 || e == 77
               || e == 78 || e == 79 || e == 84 || e == 85 || e == 86 || e == 88 || e == 92 || e == 95 || e == 97 || e == 98
               || e == 100 || e == 102 || e == 103 || e == 104 || e == 106)
    ensures d22 == Top(e + 22)
    ensures d22 == (e == 1 || e == 2 || e == 14 || e == 17 || e == 22 || e == 24 || e == 25 || e == 28 || e == 29 || e == 30
               || e == 31 || e == 32 || e == 40 || e == 42 || e == 46 || e == 47 || e == 48 || e == 49 || e == 50 || e == 52
               || e == 53 || e == 56 || e == 59 || e == 65 || e == 66 || e == 68 || e == 69 || e == 71 || e == 74 || e == 76
               || e == 77 || e == 78 || e == 83 || e == 84 || e == 85 || e == 87 || e == 91 || e == 94 || e == 96 || e == 97
               || e == 99 || e == 101 || e == 102 || e == 103 || e == 105 || e == 106)
    ensures d23 == Top(e + 23)
    ensures d23 == (e == 0 || e == 1 || e == 13 || e == 16 || e == 21 || e == 23 || e == 24 || e == 27 || e == 28 || e == 29
               || e == 30 || e == 31 || e == 39 || e == 41 || e == 45 || e == 46 || e == 47 || e == 48 || e == 49 || e == 51
               || e == 52 || e == 55 || e == 58 || e == 64 || e == 65 || e == 67 || e == 68 || e == 70 || e == 73 || e == 75
               || e == 76 || e == 77 || e == 82 || e == 83 || e == 84 || e == 86 || e == 90 || e == 93 || e == 95 || e == 96
               || e == 98 || e == 100 || e == 101 || e == 102 || e == 104 || e == 105 || e == 106)
  {
    d21, d22, d23 := Top(e + 21), Top(e + 22), Top(e + 23);
  }

  // No four powers cancel in all of these terms.  Each range of j is one small search over the lists above.
  lemma NotAllEven0(j: nat, k: nat, l: nat)
    requires 0 < j < k < l <= 106 && j <= 7
    ensures !AllEven(j, k, l)
  {
    hide Top;
    var a6, a7, a8 := Tops6(j);
    var a9, a10, a11 := Tops9(j);
    var a12, a13, a14 := Tops12(j);
    var a15, a16, a17 := Tops15(j);
    var a18, a19, a20 := Tops18(j);
    var a21, a22, a23 := Tops21(j);
    var b6, b7, b8 := Tops6(k);
    var b9, b10, b11 := Tops9(k);
    var b12, b13, b14 := Tops12(k);
    var b15, b16, b17 := Tops15(k);
    var b18, b19, b20 := Tops18(k);
    var b21, b22, b23 := Tops21(k);
    var c6, c7, c8 := Tops6(l);
    var c9, c10, c11 := Tops9(l);
    var c12, c13, c14 := Tops12(l);
    var c15, c16, c17 := Tops15(l);
    var c18, c19, c20 := Tops18(l);
    var c21, c22, c23 := Tops21(l);
  }

  lemma NotAllEven1(j: nat, k: nat, l: nat)
    requires 0 < j < k < l <= 106 && 7 < j <= 14
    ensures !AllEven(j, k, l)
  {
    hide Top;
    var a6, a7, a8 := Tops6(j);
    var a9, a10, a11 := Tops9(j);
    var a12, a13, a14 := Tops12(j);
    var a15, a16, a17 := Tops15(j);
    var a18, a19, a20 := Tops18(j);
    var a21, a22, a23 := Tops21(j);
    var b6, b7, b8 := Tops6(k);
    var b9, b10, b11 := Tops9(k);
    var b12, b13, b14 := Tops12(k);
    var b15, b16, b17 := Tops15(k);
    var b18, b19, b20 := Tops18(k);
    var b21, b22, b23 := Tops21(k);
    var c6, c7, c8 := Tops6(l);
    var c9, c10, c11 := Tops9(l);
    var c12, c13, c14 := Tops12(l);
    var c15, c16, c17 := Tops15(l);
    var c18, c19, c20 := Tops18(l);
    var c21, c22, c23 := Tops21(l);
  }

  lemma NotAllEven2(j: nat, k: nat, l: nat)
    requires 0 < j < k < l <= 106 && 14 < j <= 22
    ensures !AllEven(j, k, l)
  {
    hide Top;
    var a6, a7, a8 := Tops6(j);
    var a9, a10, a11 := Tops9(j);
    var a12, a13, a14 := Tops12(j);
    var a15, a16, a17 := Tops15(j);
    var a18, a19, a20 := Tops18(j);
    var a21, a22, a23 := Tops21(j);
    var b6, b7, b8 := Tops6(k);
    var b9, b10, b11 := Tops9(k);
    var b12, b13, b14 := Tops12(k);
    var b15, b16, b17 := Tops15(k);
    var b18, b19, b20 := Tops18(k);
    var b21, b22, b23 := Tops21(k);
    var c6, c7, c8 := Tops6(l);
    var c9, c10, c11 := Tops9(l);
    var c12, c13, c14 := Tops12(l);
    var c15, c16, c17 := Tops15(l);
    var c18, c19, c20 := Tops18(l);
    var c21, c22, c23 := Tops21(l);
  }

  lemma NotAllEven3(j: nat, k: nat, l: nat)
    requires 0 < j < k < l <= 106 && 22 < j <= 30
    ensures !AllEven(j, k, l)
  {
    hide Top;
    var a6, a7, a8 := Tops6(j);
    var a9, a10, a11 := Tops9(j);
    var a12, a13, a14 := Tops12(j);
    var a15, a16, a17 := Tops15(j);
    var a18, a19, a20 := Tops18(j);
    var a21, a22, a23 := Tops21(j);
    var b6, b7, b8 := Tops6(k);
    var b9, b10, b11 := Tops9(k);
    var b12, b13, b14 := Tops12(k);
    var b15, b16, b17 := Tops15(k);
    var b18, b19, b20 := Tops18(k);
    var b21, b22, b23 := Tops21(k);
    var c6, c7, c8 := Tops6(l);
    var c9, c10, c11 := Tops9(l);
    var c12, c13, c14 := Tops12(l);
    var c15, c16, c17 := Tops15(l);
    var c18, c19, c20 := Tops18(l);
    var c21, c22, c23 := Tops21(l);
  }

  lemma NotAllEven4(j: nat, k: nat, l: nat)
    requires 0 < j < k < l <= 106 && 30 < j <= 40
    ensures !AllEven(j, k, l)
  {
    hide Top;
    var a6, a7, a8 := Tops6(j);
    var a9, a10, a11 := Tops9(j);
    var a12, a13, a14 := Tops12(j);
    var a15, a16, a17 := Tops15(j);
    var a18, a19, a20 := Tops18(j);
    var a21, a22, a23 := Tops21(j);
    var b6, b7, b8 := Tops6(k);
    var b9, b10, b11 := Tops9(k);
    var b12, b13, b14 := Tops12(k);
    var b15, b16, b17 := Tops15(k);
    var b18, b19, b20 := Tops18(k);
    var b21, b22, b23 := Tops21(k);
    var c6, c7, c8 := Tops6(l);
    var c9, c10, c11 := Tops9(l);
    var c12, c13, c14 := Tops12(l);
    var c15, c16, c17 := Tops15(l);
    var c18, c19, c20 := Tops18(l);
    var c21, c22, c23 := Tops21(l);
  }

  lemma NotAllEven5(j: nat, k: nat, l: nat)
    requires 0 < j < k < l <= 106 && 40 < j <= 52
    ensures !AllEven(j, k, l)
  {
    hide Top;
    var a6, a7, a8 := Tops6(j);
    var a9, a10, a11 := Tops9(j);
    var a12, a13, a14 := Tops12(j);
    var a15, a16, a17 := Tops15(j);
    var a18, a19, a20 := Tops18(j);
    var a21, a22, a23 := Tops21(j);
    var b6, b7, b8 := Tops6(k);
    var b9, b10, b11 := Tops9(k);
    var b12, b13, b14 := Tops12(k);
    var b15, b16, b17 := Tops15(k);
    var b18, b19, b20 := Tops18(k);
    var b21, b22, b23 := Tops21(k);
    var c6, c7, c8 := Tops6(l);
    var c9, c10, c11 := Tops9(l);
    var c12, c13, c14 := Tops12(l);
    var c15, c16, c17 := Tops15(l);
    var c18, c19, c20 := Tops18(l);
    var c21, c22, c23 := Tops21(l);
  }

  lemma NotAllEven6(j: nat, k: nat, l: nat)
    requires 0 < j < k < l <= 106 && 52 < j <= 66
    ensures !AllEven(j, k, l)
  {
    hide Top;
    var a6, a7, a8 := Tops6(j);
    var a9, a10, a11 := Tops9(j);
    var a12, a13, a14 := Tops12(j);
    var a15, a16, a17 := Tops15(j);
    var a18, a19, a20 := Tops18(j);
    var a21, a22, a23 := Tops21(j);
    var b6, b7, b8 := Tops6(k);
    var b9, b10, b11 := Tops9(k);
    var b12, b13, b14 := Tops12(k);
    var b15, b16, b17 := Tops15(k);
    var b18, b19, b20 := Tops18(k);
    var b21, b22, b23 := Tops21(k);
    var c6, c7, c8 := Tops6(l);
    var c9, c10, c11 := Tops9(l);
    var c12, c13, c14 := Tops12(l);
    var c15, c16, c17 := Tops15(l);
    var c18, c19, c20 := Tops18(l);
    var c21, c22, c23 := Tops21(l);
  }

  lemma NotAllEven7(j: nat, k: nat, l: nat)
    requires 0 < j < k < l <= 106 && 66 < j
    ensures !AllEven(j, k, l)
  {
    hide Top;
    var a6, a7, a8 := Tops6(j);
    var a9, a10, a11 := Tops9(j);
    var a12, a13, a14 := Tops12(j);
    var a15, a16, a17 := Tops15(j);
    var a18, a19, a20 := Tops18(j);
    var a21, a22, a23 := Tops21(j);
    var b6, b7, b8 := Tops6(k);
    var b9, b10, b11 := Tops9(k);
    var b12, b13, b14 := Tops12(k);
    var b15, b16, b17 := Tops15(k);
    var b18, b19, b20 := Tops18(k);
    var b21, b22, b23 := Tops21(k);
    var c6, c7, c8 := Tops6(l);
    var c9, c10, c11 := Tops9(l);
    var c12, c13, c14 := Tops12(l);
    var c15, c16, c17 := Tops15(l);
    var c18, c19, c20 := Tops18(l);
    var c21, c22, c23 := Tops21(l);
  }

  lemma NotAllEven(j: nat, k: nat, l: nat)
    requires 0 < j < k < l <= 106
    ensures !AllEven(j, k, l)
  {
    hide AllEven;
    if j <= 7 { NotAllEven0(j, k, l); }
    else if j <= 14 { NotAllEven1(j, k, l); }
    else if j <= 22 { NotAllEven2(j, k, l); }
    else if j <= 30 { NotAllEven3(j, k, l); }
    else if j <= 40 { NotAllEven4(j, k, l); }
    else if j <= 52 { NotAllEven5(j, k, l); }
    else if j <= 66 { NotAllEven6(j, k, l); }
    else { NotAllEven7(j, k, l); }
  }

  function Sum4(a: Word, b: Word, c: Word, d: Word): Word {
    Xor24(Xor24(Xor24(a, b), c), d)
  }

  lemma HighXor(a: Word, b: Word)
    ensures Xor24(a, b) >= 0x800000 <==> (a >= 0x800000) != (b >= 0x800000)
  {
    hide Xor, Shift;
    ShiftParity(a);
    ShiftParity(b);
    ShiftParity(Xor24(a, b));
    ShiftLinear(a, b);
    XorStep(Shift(a), Shift(b));
  }

  lemma HighSum4(a: Word, b: Word, c: Word, d: Word)
    requires Sum4(a, b, c, d) == 0
    ensures ((a >= 0x800000) != (b >= 0x800000)) == ((c >= 0x800000) != (d >= 0x800000))
  {
    hide Xor, Xor24;
    HighXor(a, b);
    HighXor(Xor24(a, b), c);
    HighXor(Xor24(Xor24(a, b), c), d);
  }

  lemma ShiftedSum4(a: Word, b: Word, c: Word, d: Word, n: nat)
    ensures ShiftN(Sum4(a, b, c, d), n) == Sum4(ShiftN(a, n), ShiftN(b, n), ShiftN(c, n), ShiftN(d, n))
  {
    hide ShiftN, Xor24;
    ShiftNLinear(a, b, n);
    ShiftNLinear(Xor24(a, b), c, n);
    ShiftNLinear(Xor24(Xor24(a, b), c), d, n);
  }

  function PowerSum(j: nat, k: nat, l: nat, t: nat): Word {
    Sum4(Power(l + t), Power(k + t), Power(j + t), Power(t))
  }

  // Multiplying all four by the same power of x.
  lemma ShiftedPowers(j: nat, k: nat, l: nat, t: nat)
    ensures PowerSum(j, k, l, t) == ShiftN(PowerSum(j, k, l, 0), t)
  {
    hide ShiftN, Sum4;
    ShiftedSum4(Power(l), Power(k), Power(j), Power(0), t);
    ShiftNSum(1, j, t);
    ShiftNSum(1, k, t);
    ShiftNSum(1, l, t);
    ShiftNSum(1, 0, t);
  }

  lemma {:induction false} ShiftNKernel(r: Word, n: nat)
    requires ShiftN(r, n) == 0
    ensures r == 0
  {
    hide Shift;
    if n > 0 {
      ShiftKernel(ShiftN(r, n - 1));
      ShiftNKernel(r, n - 1);
    }
  }

  lemma EvenAt(j: nat, k: nat, l: nat, t: nat)
    requires j <= 106 && k <= 106 && l <= 106 && t < 24 && PowerSum(j, k, l, 0) == 0
    ensures Even(j, k, l, t)
  {
    hide Power, Sum4, Top;
    ShiftedPowers(j, k, l, t);
    ShiftNZero(t);
    HighSum4(Power(l + t), Power(k + t), Power(j + t), Power(t));
    Samples();
    SmallTop(t);
    TopIs(j + t);
    TopIs(k + t);
    TopIs(l + t);
    TopIs(t);
  }

  lemma TopIs(n: nat)
    requires n < 130 && TopsBelow(130)
    ensures Top(n) <==> Power(n) >= 0x800000
  {
    hide Top, Power;
  }

  // No four different powers of x up to x^106 add up to zero, nor do their multiples.
  lemma PowersIndependent(j: nat, k: nat, l: nat, t: nat)
    requires 0 < j < k < l <= 106
    ensures PowerSum(j, k, l, t) != 0
  {
    hide PowerSum, Even, ShiftN;
    ShiftedPowers(j, k, l, t);
    if PowerSum(j, k, l, t) == 0 {
      ShiftNKernel(PowerSum(j, k, l, 0), t);
      forall s: nat | s < 24 ensures Even(j, k, l, s) {
        EvenAt(j, k, l, s);
      }
      NotAllEven(j, k, l);
      assert false;
    }
  }

  // ---------------------------------------------------------------- patterns

  lemma FourIndependent(w: nat, x: nat, y: nat, z: nat)
    requires w > x > y > z && w <= z + 106
    ensures Sum4(Power(w), Power(x), Power(y), Power(z)) != 0
  {
    hide Power, Sum4;
    PowersIndependent(y - z, x - z, w - z, z);
  }

  lemma SwapLast(a: Word, b: Word, c: Word, d: Word)
    ensures Sum4(a, b, c, d) == Sum4(a, b, d, c)
  {
    hide Xor;
    XorLast(Xor(a, b), c, d);
  }

  lemma SwapMiddle(a: Word, b: Word, c: Word, d: Word)
    ensures Sum4(a, b, c, d) == Sum4(a, c, b, d)
  {
    hide Xor;
    XorLast(a, b, c);
  }

  lemma SwapFirst(a: Word, b: Word, c: Word, d: Word)
    ensures Sum4(a, b, c, d) == Sum4(b, a, c, d)
  {
    hide Xor;
    XorComm(a, b);
  }

  // Equal summands cancel.
  lemma EqualLast(a: Word, b: Word, c: Word)
    ensures Sum4(a, b, c, c) == Xor24(a, b)
  {
    XorCancel(Xor(a, b), c);
  }

  // Three different powers never add up to a single one.
  lemma ThreeAndOne(x: nat, y: nat, z: nat, w: nat)
    requires 111 >= x > y > z && x <= z + 106 && w <= 111 && x <= w + 106 && w <= z + 106
    ensures Sum4(Power(x), Power(y), Power(z), Power(w)) != 0
  {
    hide Power, Sum4, Xor24;
    var a, b, c, d := Power(x), Power(y), Power(z), Power(w);
    SwapLast(a, b, c, d);
    SwapMiddle(a, b, d, c);
    SwapFirst(a, d, b, c);
    if w < z {
      FourIndependent(x, y, z, w);
    } else if w == z {
      EqualLast(a, b, c);
      DifferentSum(y, x);
    } else if w < y {
      FourIndependent(x, y, w, z);
    } else if w == y {
      SwapLast(a, d, b, c);
      SwapMiddle(a, d, c, b);
      EqualLast(a, c, b);
      DifferentSum(z, x);
    } else if w < x {
      FourIndependent(x, w, y, z);
    } else if w == x {
      SwapMiddle(d, a, b, c);
      SwapLast(d, b, a, c);
      SwapFirst(d, b, c, a);
      SwapMiddle(b, d, c, a);
      EqualLast(b, c, a);
      DifferentSum(z, y);
    } else {
      FourIndependent(w, x, y, z);
    }
  }

  lemma DifferentSum(m: nat, n: nat)
    requires m < n <= 111
    ensures Xor24(Power(n), Power(m)) != 0
  {
    hide Power, Xor;
    PowersDistinct(m, n);
    XorZeroIsEqual(Power(n), Power(m));
  }

  // Up to five wrong bits outside the format field of a message of at most 112 bits always change its
  // checksum.
  lemma FiveErrorsDetected(e: seq<nat>, bits: nat)
    requires ErrorCorrection.Pattern(e, bits, 1, 5) && bits <= 112
    ensures AllBelow(e, bits) && Syndrome(e, bits) != 0
  {
    hide Syndrome, Power, Odd, Sum4;
    PatternBelow(e, bits, 1, 5);
    if |e| % 2 == 1 {
      OddSyndrome(e, bits);
      OddDouble(0);
    } else if |e| == 2 {
      SmallErrorsDetected(e, bits);
    } else {
      FourSyndrome(e, bits);
      var n := bits - 1;
      FourIndependent(n - e[0], n - e[1], n - e[2], n - e[3]);
    }
  }

  lemma ThreeSyndrome(e: seq<nat>, bits: nat)
    requires |e| == 3 && AllBelow(e, bits)
    ensures var n := bits - 1;
            Syndrome(e, bits) == Xor24(Xor24(Power(n - e[0]), Power(n - e[1])), Power(n - e[2]))
  {
    hide Syndrome, Power, Xor;
    NoSyndrome(bits);
    SyndromeSnoc([], e[0], bits);
    SyndromeSnoc([e[0]], e[1], bits);
    SyndromeSnoc([e[0], e[1]], e[2], bits);
    XorZero(Power(bits - 1 - e[0]));
    assert [] + [e[0]] == [e[0]] && [e[0]] + [e[1]] == [e[0], e[1]] && [e[0], e[1]] + [e[2]] == e;
  }

  lemma NoSyndrome(bits: nat)
    ensures Syndrome([], bits) == 0
  {
  }

  lemma FourSyndrome(e: seq<nat>, bits: nat)
    requires |e| == 4 && AllBelow(e, bits)
    ensures var n := bits - 1; Syndrome(e, bits) == Sum4(Power(n - e[0]), Power(n - e[1]), Power(n - e[2]), Power(n - e[3]))
  {
    hide Syndrome, Power, Xor24;
    ThreeSyndrome(e[..3], bits);
    SyndromeSnoc(e[..3], e[3], bits);
    assert e[..3] + [e[3]] == e;
  }

  // No pattern of one to four wrong bits but itself has the syndrome of a single one.
  lemma SingleBitsUnambiguous(e: seq<nat>, bits: nat, detect: nat)
    requires bits <= 112 && ErrorCorrection.Pattern(e, bits, 1, 1) && detect <= 4
    ensures Unambiguous(e, bits, 1, detect)
  {
    hide Syndrome, Power, Sum4;
    SingleSyndrome(e, bits);
    forall d | ErrorCorrection.Pattern(d, bits, 1, detect) && SameSyndrome(d, e, bits) ensures d == e {
      SameParity(d, e, bits);
      if |d| == 1 {
        SameSingle(d, e, bits);
      } else {
        ThreeNotSingle(d, e, bits);
      }
    }
  }

  lemma SameSingle(d: seq<nat>, e: seq<nat>, bits: nat)
    requires bits <= 112 && ErrorCorrection.Pattern(d, bits, 1, 1) && ErrorCorrection.Pattern(e, bits, 1, 1)
    requires SameSyndrome(d, e, bits)
    ensures d == e
  {
    SingleSyndrome(d, bits);
    SingleSyndrome(e, bits);
    hide Syndrome, Power, ErrorCorrection.Pattern;
    var p, q := bits - 1 - d[0], bits - 1 - e[0];
    if p < q { PowersDistinct(p, q); }
    if q < p { PowersDistinct(q, p); }
  }

  lemma ThreeNotSingle(d: seq<nat>, e: seq<nat>, bits: nat)
    requires bits <= 112 && ErrorCorrection.Pattern(d, bits, 3, 3) && ErrorCorrection.Pattern(e, bits, 1, 1)
    ensures !SameSyndrome(d, e, bits)
  {
    hide Syndrome, Power, Sum4, Xor;
    PatternBelow(d, bits, 3, 3);
    SingleSyndrome(e, bits);
    ThreeSyndrome(d, bits);
    var n := bits - 1;
    ThreeAndOne(n - d[0], n - d[1], n - d[2], n - e[0]);
    if SameSyndrome(d, e, bits) {
      SumZero(Power(n - d[0]), Power(n - d[1]), Power(n - d[2]), Power(n - e[0]));
      assert false;
    }
  }

  lemma SumZero(a: Word, b: Word, c: Word, d: Word)
    requires Xor24(Xor24(a, b), c) == d
    ensures Sum4(a, b, c, d) == 0
  {
    XorSelf(d);
  }

  // The table for single bits, made without looking for collisions, is one for detection of up to four.
  lemma SingleBitTable(t: seq<ErrorInfo>, patterns: seq<seq<nat>>, bits: nat)
    requires bits <= 112 && TableFor(t, patterns, bits, 1, 1)
    ensures TableFor(t, patterns, bits, 1, 4)
  {
    hide Syndrome, SameSyndrome, StrictlySorted, DescribesAll;
    forall e ensures Unambiguous(e, bits, 1, 4) <==> Unambiguous(e, bits, 1, 1) {
      if ErrorCorrection.Pattern(e, bits, 1, 1) {
        SingleBitsUnambiguous(e, bits, 1);
        SingleBitsUnambiguous(e, bits, 4);
      }
    }
  }

  // With single-bit correction, damage of two to four bits is noticed and never taken for a single one.
  lemma DamageNotMistaken(c: seq<byte>, e: seq<nat>, info: Option<ErrorInfo>)
    requires |c| <= 14 && Remainder(c) == 0 && ErrorCorrection.Pattern(e, 8 * |c|, 2, 4) && AllBelow(e, 8 * |c|)
    requires Diagnosis(Remainder(FlipAll(c, e)), 8 * |c|, 1, 1, info)
    ensures Remainder(FlipAll(c, e)) != 0 && info == None
  {
    hide Syndrome, Remainder, FlipAll;
    var bits := 8 * |c|;
    FlipAllRemainder(c, e);
    XorZero(Syndrome(e, bits));
    FiveErrorsDetected(e, bits);
    if info.Some? {
      var d :| Explains(info.value, d, Syndrome(e, bits), bits, 1, 1);
      SingleBitsUnambiguous(d, bits, 4);
      Unmistaken(e, d, bits);
      assert false;
    }
  }

  lemma Unmistaken(e: seq<nat>, d: seq<nat>, bits: nat)
    requires Unambiguous(d, bits, 1, 4) && AllBelow(d, bits) && ErrorCorrection.Pattern(e, bits, 2, 4) && AllBelow(e, bits)
    ensures Syndrome(e, bits) != Syndrome(d, bits)
  {
    hide Syndrome;
    assert SameSyndrome(e, d, bits) <==> Syndrome(e, bits) == Syndrome(d, bits);
  }
}
