/** The first test of section 7.3 of RFC 3174: the digest of "abc", step by step. */
module Sha1Example {
  import opened Prelude
  import opened Bytes
  import opened Sha1

  /** Sixteen words of the schedule. */
  predicate Window(block: seq<byte>, t: nat, a: bv32, b: bv32, c: bv32, d: bv32, e: bv32, f: bv32, g: bv32, h: bv32,
                   i: bv32, j: bv32, k: bv32, l: bv32, m: bv32, n: bv32, o: bv32, p: bv32)
    requires |block| == 64 && t <= 64
  {
    && W(block, t) == a && W(block, t + 1) == b && W(block, t + 2) == c && W(block, t + 3) == d
    && W(block, t + 4) == e && W(block, t + 5) == f && W(block, t + 6) == g && W(block, t + 7) == h
    && W(block, t + 8) == i && W(block, t + 9) == j && W(block, t + 10) == k && W(block, t + 11) == l
    && W(block, t + 12) == m && W(block, t + 13) == n && W(block, t + 14) == o && W(block, t + 15) == p
  }

  lemma Next(block: seq<byte>, t: nat, p: Hash, w: bv32, a: bv32) returns (q: Hash)
    requires |block| == 64 && t < 80 && Rounds(H0, block, t) == p && W(block, t) == w
    requires Sum(Rol(p.a, 5), F(t, p.b, p.c, p.d), p.e, K(t), w) == a
    ensures q == Hash(a, p.a, Rol(p.b, 30), p.c, p.d) && Rounds(H0, block, t + 1) == q
  {
    hide W, F, K, Rol, Sum;
    q := Hash(a, p.a, Rol(p.b, 30), p.c, p.d);
  }

  lemma NextWord(block: seq<byte>, t: nat, x: bv32, y: bv32, z: bv32, v: bv32, w: bv32)
    requires |block| == 64 && 16 <= t < 80
    requires W(block, t - 3) == x && W(block, t - 8) == y && W(block, t - 14) == z && W(block, t - 16) == v
    requires Mix(x, y, z, v) == w
    ensures W(block, t) == w
  {
    hide Mix;
  }

  lemma Rounds0(block: seq<byte>)
    requires |block| == 64
    requires Window(block, 0, 0x61626380, 0x00000000, 0x00000000, 0x00000000, 0x00000000, 0x00000000, 0x00000000,
                    0x00000000, 0x00000000, 0x00000000, 0x00000000, 0x00000000, 0x00000000, 0x00000000, 0x00000000, 0x00000018)
    requires Rounds(H0, block, 0) == Hash(0x67452301, 0xefcdab89, 0x98badcfe, 0x10325476, 0xc3d2e1f0)
    ensures Rounds(H0, block, 16) == Hash(0x20bdd62f, 0x196bee77, 0x644a3da5, 0x1181ed99, 0x18c623f9)
  {
    hide W, Rounds;
    var p := Hash(0x67452301, 0xefcdab89, 0x98badcfe, 0x10325476, 0xc3d2e1f0);
    p := Next(block, 0, p, 0x61626380, 0x0116fc33);
    p := Next(block, 1, p, 0x00000000, 0x8990536d);
    p := Next(block, 2, p, 0x00000000, 0xa1390f08);
    p := Next(block, 3, p, 0x00000000, 0xcdd8e11b);
    p := Next(block, 4, p, 0x00000000, 0xcfd499de);
    p := Next(block, 5, p, 0x00000000, 0x3fc7ca40);
    p := Next(block, 6, p, 0x00000000, 0x993e30c1);
    p := Next(block, 7, p, 0x00000000, 0x9e8c07d4);
    p := Next(block, 8, p, 0x00000000, 0x4b6ae328);
    p := Next(block, 9, p, 0x00000000, 0x8351f929);
    p := Next(block, 10, p, 0x00000000, 0xfbda9e89);
    p := Next(block, 11, p, 0x00000000, 0x63188fe4);
    p := Next(block, 12, p, 0x00000000, 0x4607b664);
    p := Next(block, 13, p, 0x00000000, 0x9128f695);
    p := Next(block, 14, p, 0x00000000, 0x196bee77);
    p := Next(block, 15, p, 0x00000018, 0x20bdd62f);
  }

  lemma Words16(block: seq<byte>)
    requires |block| == 64
    requires Window(block, 0, 0x61626380, 0x00000000, 0x00000000, 0x00000000, 0x00000000, 0x00000000, 0x00000000,
                    0x00000000, 0x00000000, 0x00000000, 0x00000000, 0x00000000, 0x00000000, 0x00000000, 0x00000000, 0x00000018)
    ensures Window(block, 16, 0xc2c4c700, 0x00000000, 0x00000030, 0x85898e01, 0x00000000, 0x00000060, 0x0b131c03,
                   0x00000030, 0x85898ec1, 0x16263806, 0x00000000, 0x00000180, 0x2c4c700c, 0x000000f0, 0x93afb507, 0x5898e048)
  {
    hide W;
    NextWord(block, 16, 0x00000000, 0x00000000, 0x00000000, 0x61626380, 0xc2c4c700);
    NextWord(block, 17, 0x00000000, 0x00000000, 0x00000000, 0x00000000, 0x00000000);
    NextWord(block, 18, 0x00000018, 0x00000000, 0x00000000, 0x00000000, 0x00000030);
    NextWord(block, 19, 0xc2c4c700, 0x00000000, 0x00000000, 0x00000000, 0x85898e01);
    NextWord(block, 20, 0x00000000, 0x00000000, 0x00000000, 0x00000000, 0x00000000);
    NextWord(block, 21, 0x00000030, 0x00000000, 0x00000000, 0x00000000, 0x00000060);
    NextWord(block, 22, 0x85898e01, 0x00000000, 0x00000000, 0x00000000, 0x0b131c03);
    NextWord(block, 23, 0x00000000, 0x00000018, 0x00000000, 0x00000000, 0x00000030);
    NextWord(block, 24, 0x00000060, 0xc2c4c700, 0x00000000, 0x00000000, 0x85898ec1);
    NextWord(block, 25, 0x0b131c03, 0x00000000, 0x00000000, 0x00000000, 0x16263806);
    NextWord(block, 26, 0x00000030, 0x00000030, 0x00000000, 0x00000000, 0x00000000);
    NextWord(block, 27, 0x85898ec1, 0x85898e01, 0x00000000, 0x00000000, 0x00000180);
    NextWord(block, 28, 0x16263806, 0x00000000, 0x00000000, 0x00000000, 0x2c4c700c);
    NextWord(block, 29, 0x00000000, 0x00000060, 0x00000018, 0x00000000, 0x000000f0);
    NextWord(block, 30, 0x00000180, 0x0b131c03, 0xc2c4c700, 0x00000000, 0x93afb507);
    NextWord(block, 31, 0x2c4c700c, 0x00000030, 0x00000000, 0x00000018, 0x5898e048);
  }

  lemma Rounds16(block: seq<byte>)
    requires |block| == 64
    requires Window(block, 16, 0xc2c4c700, 0x00000000, 0x00000030, 0x85898e01, 0x00000000, 0x00000060, 0x0b131c03,
                    0x00000030, 0x85898ec1, 0x16263806, 0x00000000, 0x00000180, 0x2c4c700c, 0x000000f0, 0x93afb507, 0x5898e048)
    requires Rounds(H0, block, 16) == Hash(0x20bdd62f, 0x196bee77, 0x644a3da5, 0x1181ed99, 0x18c623f9)
    ensures Rounds(H0, block, 32) == Hash(0x3b845d33, 0x1267b407, 0x717eebd7, 0xa0dc2d4b, 0xd2aa1365)
  {
    hide W, Rounds;
    var p := Hash(0x20bdd62f, 0x196bee77, 0x644a3da5, 0x1181ed99, 0x18c623f9);
    p := Next(block, 16, p, 0xc2c4c700, 0x4e925823);
    p := Next(block, 17, p, 0x00000000, 0x82aa6728);
    p := Next(block, 18, p, 0x00000030, 0xdc64901d);
    p := Next(block, 19, p, 0x85898e01, 0xfd9e1d7d);
    p := Next(block, 20, p, 0x00000000, 0x1a37b0ca);
    p := Next(block, 21, p, 0x00000060, 0x33a23bfc);
    p := Next(block, 22, p, 0x0b131c03, 0x21283486);
    p := Next(block, 23, p, 0x00000030, 0xd541f12d);
    p := Next(block, 24, p, 0x85898ec1, 0xc7567dc6);
    p := Next(block, 25, p, 0x16263806, 0x48413ba4);
    p := Next(block, 26, p, 0x00000000, 0xbe35fbd5);
    p := Next(block, 27, p, 0x00000180, 0x4aa84d97);
    p := Next(block, 28, p, 0x2c4c700c, 0x8370b52e);
    p := Next(block, 29, p, 0x000000f0, 0xc5fbaf5d);
    p := Next(block, 30, p, 0x93afb507, 0x1267b407);
    p := Next(block, 31, p, 0x5898e048, 0x3b845d33);
  }

  lemma Words32(block: seq<byte>)
    requires |block| == 64
    requires Window(block, 16, 0xc2c4c700, 0x00000000, 0x00000030, 0x85898e01, 0x00000000, 0x00000060, 0x0b131c03,
                    0x00000030, 0x85898ec1, 0x16263806, 0x00000000, 0x00000180, 0x2c4c700c, 0x000000f0, 0x93afb507, 0x5898e048)
    ensures Window(block, 32, 0x8e9a9202, 0x00000600, 0xb131c0f0, 0x16263bc6, 0x4ebed41e, 0x626380a1, 0x16263806,
                   0x000018c0, 0xd2e138c4, 0x00000f00, 0x3afb5079, 0x898e04e5, 0xe2ba3c2b, 0x000060c0, 0x053a37cd, 0x74458547)
  {
    hide W;
    NextWord(block, 32, 0x000000f0, 0x85898ec1, 0x00000030, 0xc2c4c700, 0x8e9a9202);
    NextWord(block, 33, 0x93afb507, 0x16263806, 0x85898e01, 0x00000000, 0x00000600);
    NextWord(block, 34, 0x5898e048, 0x00000000, 0x00000000, 0x00000030, 0xb131c0f0);
    NextWord(block, 35, 0x8e9a9202, 0x00000180, 0x00000060, 0x85898e01, 0x16263bc6);
    NextWord(block, 36, 0x00000600, 0x2c4c700c, 0x0b131c03, 0x00000000, 0x4ebed41e);
    NextWord(block, 37, 0xb131c0f0, 0x000000f0, 0x00000030, 0x00000060, 0x626380a1);
    NextWord(block, 38, 0x16263bc6, 0x93afb507, 0x85898ec1, 0x0b131c03, 0x16263806);
    NextWord(block, 39, 0x4ebed41e, 0x5898e048, 0x16263806, 0x00000030, 0x000018c0);
    NextWord(block, 40, 0x626380a1, 0x8e9a9202, 0x00000000, 0x85898ec1, 0xd2e138c4);
    NextWord(block, 41, 0x16263806, 0x00000600, 0x00000180, 0x16263806, 0x00000f00);
    NextWord(block, 42, 0x000018c0, 0xb131c0f0, 0x2c4c700c, 0x00000000, 0x3afb5079);
    NextWord(block, 43, 0xd2e138c4, 0x16263bc6, 0x000000f0, 0x00000180, 0x898e04e5);
    NextWord(block, 44, 0x00000f00, 0x4ebed41e, 0x93afb507, 0x2c4c700c, 0xe2ba3c2b);
    NextWord(block, 45, 0x3afb5079, 0x626380a1, 0x5898e048, 0x000000f0, 0x000060c0);
    NextWord(block, 46, 0x898e04e5, 0x16263806, 0x8e9a9202, 0x93afb507, 0x053a37cd);
    NextWord(block, 47, 0xe2ba3c2b, 0x000018c0, 0x00000600, 0x5898e048, 0x74458547);
  }

  lemma Rounds32(block: seq<byte>)
    requires |block| == 64
    requires Window(block, 32, 0x8e9a9202, 0x00000600, 0xb131c0f0, 0x16263bc6, 0x4ebed41e, 0x626380a1, 0x16263806,
                    0x000018c0, 0xd2e138c4, 0x00000f00, 0x3afb5079, 0x898e04e5, 0xe2ba3c2b, 0x000060c0, 0x053a37cd, 0x74458547)
    requires Rounds(H0, block, 32) == Hash(0x3b845d33, 0x1267b407, 0x717eebd7, 0xa0dc2d4b, 0xd2aa1365)
    ensures Rounds(H0, block, 48) == Hash(0xbead02ca, 0xa01b846c, 0x8714787c, 0x503ca382, 0xfb86c6ab)
  {
    hide W, Rounds;
    var p := Hash(0x3b845d33, 0x1267b407, 0x717eebd7, 0xa0dc2d4b, 0xd2aa1365);
    p := Next(block, 32, p, 0x8e9a9202, 0x046faa0a);
    p := Next(block, 33, p, 0x00000600, 0x2c0ebc11);
    p := Next(block, 34, p, 0xb131c0f0, 0x21796ad4);
    p := Next(block, 35, p, 0x16263bc6, 0xdcbbb0cb);
    p := Next(block, 36, p, 0x4ebed41e, 0x0f511fd8);
    p := Next(block, 37, p, 0x626380a1, 0xdc63973f);
    p := Next(block, 38, p, 0x16263806, 0x4c986405);
    p := Next(block, 39, p, 0x000018c0, 0x32de1cba);
    p := Next(block, 40, p, 0xd2e138c4, 0xfc87dedf);
    p := Next(block, 41, p, 0x00000f00, 0x970a0d5c);
    p := Next(block, 42, p, 0x3afb5079, 0x7f193dc5);
    p := Next(block, 43, p, 0x898e04e5, 0xee1b1aaf);
    p := Next(block, 44, p, 0xe2ba3c2b, 0x40f28e09);
    p := Next(block, 45, p, 0x000060c0, 0x1c51e1f2);
    p := Next(block, 46, p, 0x053a37cd, 0xa01b846c);
    p := Next(block, 47, p, 0x74458547, 0xbead02ca);
  }

  lemma Words48(block: seq<byte>)
    requires |block| == 64
    requires Window(block, 32, 0x8e9a9202, 0x00000600, 0xb131c0f0, 0x16263bc6, 0x4ebed41e, 0x626380a1, 0x16263806,
                    0x000018c0, 0xd2e138c4, 0x00000f00, 0x3afb5079, 0x898e04e5, 0xe2ba3c2b, 0x000060c0, 0x053a37cd, 0x74458547)
    ensures Window(block, 48, 0xda9415ed, 0x26380a16, 0x626383a1, 0x4ebf54de, 0x3835b44b, 0x0000f600, 0x1e84c7a3,
                   0x98e04d98, 0x651d16a0, 0x62658ca1, 0x458544d6, 0x44584cb7, 0x7ba06619, 0x6380aea2, 0x0ae55269, 0x627b49a1)
  {
    hide W;
    NextWord(block, 48, 0x000060c0, 0xd2e138c4, 0xb131c0f0, 0x8e9a9202, 0xda9415ed);
    NextWord(block, 49, 0x053a37cd, 0x00000f00, 0x16263bc6, 0x00000600, 0x26380a16);
    NextWord(block, 50, 0x74458547, 0x3afb5079, 0x4ebed41e, 0xb131c0f0, 0x626383a1);
    NextWord(block, 51, 0xda9415ed, 0x898e04e5, 0x626380a1, 0x16263bc6, 0x4ebf54de);
    NextWord(block, 52, 0x26380a16, 0xe2ba3c2b, 0x16263806, 0x4ebed41e, 0x3835b44b);
    NextWord(block, 53, 0x626383a1, 0x000060c0, 0x000018c0, 0x626380a1, 0x0000f600);
    NextWord(block, 54, 0x4ebf54de, 0x053a37cd, 0xd2e138c4, 0x16263806, 0x1e84c7a3);
    NextWord(block, 55, 0x3835b44b, 0x74458547, 0x00000f00, 0x000018c0, 0x98e04d98);
    NextWord(block, 56, 0x0000f600, 0xda9415ed, 0x3afb5079, 0xd2e138c4, 0x651d16a0);
    NextWord(block, 57, 0x1e84c7a3, 0x26380a16, 0x898e04e5, 0x00000f00, 0x62658ca1);
    NextWord(block, 58, 0x98e04d98, 0x626383a1, 0xe2ba3c2b, 0x3afb5079, 0x458544d6);
    NextWord(block, 59, 0x651d16a0, 0x4ebf54de, 0x000060c0, 0x898e04e5, 0x44584cb7);
    NextWord(block, 60, 0x62658ca1, 0x3835b44b, 0x053a37cd, 0xe2ba3c2b, 0x7ba06619);
    NextWord(block, 61, 0x458544d6, 0x0000f600, 0x74458547, 0x000060c0, 0x6380aea2);
    NextWord(block, 62, 0x44584cb7, 0x1e84c7a3, 0xda9415ed, 0x053a37cd, 0x0ae55269);
    NextWord(block, 63, 0x7ba06619, 0x98e04d98, 0x26380a16, 0x74458547, 0x627b49a1);
  }

  lemma Rounds48(block: seq<byte>)
    requires |block| == 64
    requires Window(block, 48, 0xda9415ed, 0x26380a16, 0x626383a1, 0x4ebf54de, 0x3835b44b, 0x0000f600, 0x1e84c7a3,
                    0x98e04d98, 0x651d16a0, 0x62658ca1, 0x458544d6, 0x44584cb7, 0x7ba06619, 0x6380aea2, 0x0ae55269, 0x627b49a1)
    requires Rounds(H0, block, 48) == Hash(0xbead02ca, 0xa01b846c, 0x8714787c, 0x503ca382, 0xfb86c6ab)
    ensures Rounds(H0, block, 64) == Hash(0x6b61c9e1, 0xb66c020b, 0x9523272c, 0xf5d5b051, 0x8fd4b796)
  {
    hide W, Rounds;
    var p := Hash(0xbead02ca, 0xa01b846c, 0x8714787c, 0x503ca382, 0xfb86c6ab);
    p := Next(block, 48, p, 0xda9415ed, 0xbaf39337);
    p := Next(block, 49, p, 0x26380a16, 0x120731c5);
    p := Next(block, 50, p, 0x626383a1, 0x641db2ce);
    p := Next(block, 51, p, 0x4ebf54de, 0x3847ad66);
    p := Next(block, 52, p, 0x3835b44b, 0xe490436d);
    p := Next(block, 53, p, 0x0000f600, 0x27e9f1d8);
    p := Next(block, 54, p, 0x1e84c7a3, 0x7b71f76d);
    p := Next(block, 55, p, 0x98e04d98, 0x5e6456af);
    p := Next(block, 56, p, 0x651d16a0, 0xc846093f);
    p := Next(block, 57, p, 0x62658ca1, 0xd262ff50);
    p := Next(block, 58, p, 0x458544d6, 0x09d785fd);
    p := Next(block, 59, p, 0x44584cb7, 0x3f52de5a);
    p := Next(block, 60, p, 0x7ba06619, 0xd756c147);
    p := Next(block, 61, p, 0x6380aea2, 0x548c9cb2);
    p := Next(block, 62, p, 0x0ae55269, 0xb66c020b);
    p := Next(block, 63, p, 0x627b49a1, 0x6b61c9e1);
  }

  lemma Words64(block: seq<byte>)
    requires |block| == 64
    requires Window(block, 48, 0xda9415ed, 0x26380a16, 0x626383a1, 0x4ebf54de, 0x3835b44b, 0x0000f600, 0x1e84c7a3,
                    0x98e04d98, 0x651d16a0, 0x62658ca1, 0x458544d6, 0x44584cb7, 0x7ba06619, 0x6380aea2, 0x0ae55269, 0x627b49a1)
    ensures Window(block, 64, 0x7cd45c9d, 0x000f0000, 0xfb50753a, 0xec6765e8, 0xba3c2be2, 0x0060c000, 0x3a37cd05,
                   0x458546f4, 0xb8599dd6, 0x380a1a26, 0x01e02203, 0xe7cc3456, 0xe6e60b69, 0x00f60a00, 0x5795ef4f, 0x822e0879)
  {
    hide W;
    NextWord(block, 64, 0x6380aea2, 0x651d16a0, 0x626383a1, 0xda9415ed, 0x7cd45c9d);
    NextWord(block, 65, 0x0ae55269, 0x62658ca1, 0x4ebf54de, 0x26380a16, 0x000f0000);
    NextWord(block, 66, 0x627b49a1, 0x458544d6, 0x3835b44b, 0x626383a1, 0xfb50753a);
    NextWord(block, 67, 0x7cd45c9d, 0x44584cb7, 0x0000f600, 0x4ebf54de, 0xec6765e8);
    NextWord(block, 68, 0x000f0000, 0x7ba06619, 0x1e84c7a3, 0x3835b44b, 0xba3c2be2);
    NextWord(block, 69, 0xfb50753a, 0x6380aea2, 0x98e04d98, 0x0000f600, 0x0060c000);
    NextWord(block, 70, 0xec6765e8, 0x0ae55269, 0x651d16a0, 0x1e84c7a3, 0x3a37cd05);
    NextWord(block, 71, 0xba3c2be2, 0x627b49a1, 0x62658ca1, 0x98e04d98, 0x458546f4);
    NextWord(block, 72, 0x0060c000, 0x7cd45c9d, 0x458544d6, 0x651d16a0, 0xb8599dd6);
    NextWord(block, 73, 0x3a37cd05, 0x000f0000, 0x44584cb7, 0x62658ca1, 0x380a1a26);
    NextWord(block, 74, 0x458546f4, 0xfb50753a, 0x7ba06619, 0x458544d6, 0x01e02203);
    NextWord(block, 75, 0xb8599dd6, 0xec6765e8, 0x6380aea2, 0x44584cb7, 0xe7cc3456);
    NextWord(block, 76, 0x380a1a26, 0xba3c2be2, 0x0ae55269, 0x7ba06619, 0xe6e60b69);
    NextWord(block, 77, 0x01e02203, 0x0060c000, 0x627b49a1, 0x6380aea2, 0x00f60a00);
    NextWord(block, 78, 0xe7cc3456, 0x3a37cd05, 0x7cd45c9d, 0x0ae55269, 0x5795ef4f);
    NextWord(block, 79, 0xe6e60b69, 0x458546f4, 0x000f0000, 0x627b49a1, 0x822e0879);
  }

  lemma Rounds64(block: seq<byte>)
    requires |block| == 64
    requires Window(block, 64, 0x7cd45c9d, 0x000f0000, 0xfb50753a, 0xec6765e8, 0xba3c2be2, 0x0060c000, 0x3a37cd05,
                    0x458546f4, 0xb8599dd6, 0x380a1a26, 0x01e02203, 0xe7cc3456, 0xe6e60b69, 0x00f60a00, 0x5795ef4f, 0x822e0879)
    requires Rounds(H0, block, 64) == Hash(0x6b61c9e1, 0xb66c020b, 0x9523272c, 0xf5d5b051, 0x8fd4b796)
    ensures Rounds(H0, block, 80) == Hash(0x42541b35, 0x5738d5e1, 0x21834873, 0x681e6df6, 0xd8fdf6ad)
  {
    hide W, Rounds;
    var p := Hash(0x6b61c9e1, 0xb66c020b, 0x9523272c, 0xf5d5b051, 0x8fd4b796);
    p := Next(block, 64, p, 0x7cd45c9d, 0x19dfa7ac);
    p := Next(block, 65, p, 0x000f0000, 0x101655f9);
    p := Next(block, 66, p, 0xfb50753a, 0x0c3df2b4);
    p := Next(block, 67, p, 0xec6765e8, 0x78dd4d2b);
    p := Next(block, 68, p, 0xba3c2be2, 0x497093c0);
    p := Next(block, 69, p, 0x0060c000, 0x3f2588c2);
    p := Next(block, 70, p, 0x3a37cd05, 0xc199f8c7);
    p := Next(block, 71, p, 0x458546f4, 0x39859de7);
    p := Next(block, 72, p, 0xb8599dd6, 0xedb42de4);
    p := Next(block, 73, p, 0x380a1a26, 0x11793f6f);
    p := Next(block, 74, p, 0x01e02203, 0x5ee76897);
    p := Next(block, 75, p, 0xe7cc3456, 0x63f7dab7);
    p := Next(block, 76, p, 0xe6e60b69, 0xa079b7d9);
    p := Next(block, 77, p, 0x00f60a00, 0x860d21cc);
    p := Next(block, 78, p, 0x5795ef4f, 0x5738d5e1);
    p := Next(block, 79, p, 0x822e0879, 0x42541b35);
  }

  lemma FirstWords(block: seq<byte>)
    requires block == [0x61, 0x62, 0x63] + [0x80] + Zeros(52) + [0, 0, 0, 0, 0, 0, 0, 24]
    ensures |block| == 64
    ensures Window(block, 0, 0x61626380, 0x00000000, 0x00000000, 0x00000000, 0x00000000, 0x00000000, 0x00000000,
                    0x00000000, 0x00000000, 0x00000000, 0x00000000, 0x00000000, 0x00000000, 0x00000000, 0x00000000, 0x00000018)
  {
    assert forall i :: 4 <= i < 63 ==> block[i] == 0;
    assert block[63] == 24 && block[0] == 0x61 && block[1] == 0x62 && block[2] == 0x63 && block[3] == 0x80;
    assert Word(0x61, 0x62, 0x63, 0x80) == 0x61626380 && Word(0, 0, 0, 0) == 0 && Word(0, 0, 0, 24) == 0x18;
    hide Word;
  }

  lemma PaddedAbc()
    ensures Padded([0x61, 0x62, 0x63]) == [0x61, 0x62, 0x63] + [0x80] + Zeros(52) + [0, 0, 0, 0, 0, 0, 0, 24]
  {
    LengthOfAbc();
    hide BigEndian, Zeros;
    assert PadLength(3) == 52;
  }

  lemma LengthOfAbc()
    ensures BigEndian(24, 8) == [0, 0, 0, 0, 0, 0, 0, 24]
  {
    assert BigEndian(0, 1) == [0] && BigEndian(0, 2) == [0, 0] && BigEndian(0, 3) == [0, 0, 0];
    assert BigEndian(0, 4) == [0, 0, 0, 0] && BigEndian(0, 5) == [0, 0, 0, 0, 0] && BigEndian(0, 6) == [0, 0, 0, 0, 0, 0];
    assert BigEndian(0, 7) == [0, 0, 0, 0, 0, 0, 0];
  }

  lemma AbcRounds(block: seq<byte>)
    requires block == [0x61, 0x62, 0x63] + [0x80] + Zeros(52) + [0, 0, 0, 0, 0, 0, 0, 24]
    ensures |block| == 64 && Rounds(H0, block, 80) == Hash(0x42541b35, 0x5738d5e1, 0x21834873, 0x681e6df6, 0xd8fdf6ad)
  {
    hide Window, Zeros;
    FirstWords(block);
    assert Rounds(H0, block, 0) == H0;
    hide Rounds;
    Rounds0(block);
    Words16(block);
    Rounds16(block);
    Words32(block);
    Rounds32(block);
    Words48(block);
    Rounds48(block);
    Words64(block);
    Rounds64(block);
  }

  lemma AbcBytes()
    ensures Digest(AddWords(H0, Hash(0x42541b35, 0x5738d5e1, 0x21834873, 0x681e6df6, 0xd8fdf6ad)))
         == [0xa9, 0x99, 0x3e, 0x36, 0x47, 0x06, 0x81, 0x6a, 0xba, 0x3e,
             0x25, 0x71, 0x78, 0x50, 0xc2, 0x6c, 0x9c, 0xd0, 0xd8, 0x9d]
  {
    assert AddWords(H0, Hash(0x42541b35, 0x5738d5e1, 0x21834873, 0x681e6df6, 0xd8fdf6ad)) == Hash(0xa9993e36, 0x4706816a, 0xba3e2571, 0x7850c26c, 0x9cd0d89d);
    assert WordBytes(0xa9993e36) == [0xa9, 0x99, 0x3e, 0x36];
    assert WordBytes(0x4706816a) == [0x47, 0x06, 0x81, 0x6a];
    assert WordBytes(0xba3e2571) == [0xba, 0x3e, 0x25, 0x71];
    assert WordBytes(0x7850c26c) == [0x78, 0x50, 0xc2, 0x6c];
    assert WordBytes(0x9cd0d89d) == [0x9c, 0xd0, 0xd8, 0x9d];
  }

  /** The digest of "abc". */
  lemma DigestOfAbc()
    ensures Sha1Of([0x61, 0x62, 0x63])
         == [0xa9, 0x99, 0x3e, 0x36, 0x47, 0x06, 0x81, 0x6a, 0xba, 0x3e,
             0x25, 0x71, 0x78, 0x50, 0xc2, 0x6c, 0x9c, 0xd0, 0xd8, 0x9d]
  {
    hide Rounds, Digest, AddWords, Padded, Zeros, Fold, Compress;
    var block := Padded([0x61, 0x62, 0x63]);
    PaddedAbc();
    AbcRounds(block);
    AbcBytes();
    AbcCompressed(block);
    OneBlock(H0, block);
  }

  lemma AbcCompressed(block: seq<byte>)
    requires |block| == 64
    ensures Compress(H0, block) == AddWords(H0, Rounds(H0, block, 80))
  {
    hide Rounds, AddWords;
  }
}
