/**
  The field modulus is prime: a chain of certificates down to primes found by
  sieving. Each power is computed by squaring and multiplying, one remainder a line.
 */
module ModulusPrime {
  import opened Modulus
  import opened Primality

  // ---- the primes below the modulus -------------------------------------------------------------------

  lemma PrimeOf12BitsFirst()
    ensures Leaves(3691, 396, 41, 3216)
  {
    hide Leaves;
    First(3691, 396);
    var e: nat, x: nat := 1, 396;
    e, x := Even(3691, 396, e, x, 1794);
    e, x := Odd(3691, 396, e, x, 2047);
    e, x := Even(3691, 396, e, x, 924);
    e, x := Even(3691, 396, e, x, 1155);
    e, x := Odd(3691, 396, e, x, 3216);
  }

  lemma PrimeOf12BitsSecond()
    ensures Leaves(3691, 396, 3, 1752)
  {
    hide Leaves;
    First(3691, 396);
    var e: nat, x: nat := 1, 396;
    e, x := Odd(3691, 396, e, x, 1752);
  }

  lemma PrimeOf12BitsFull()
    ensures Leaves(3691, 3216, 3, 1)
  {
    hide Leaves;
    First(3691, 3216);
    var e: nat, x: nat := 1, 3216;
    e, x := Odd(3691, 3216, e, x, 1);
  }

  /** Certified by 41 and 3. */
  lemma PrimeOf12Bits()
    ensures Prime(3691)
  {
    hide Leaves;
    SmallPrime(41);
    SmallPrime(3);
    PrimeOf12BitsFirst();
    PrimeOf12BitsSecond();
    PrimeOf12BitsFull();
    CertifiedByTwo(3691, 396, 41, 3,
                   3216, 1388, 1209,
                   1752, 3027, 1436);
  }

  lemma PrimeOf29BitsFirst()
    ensures Leaves(405928799, 0x16371c9b, 3691, 0xcddc2ef)
  {
    hide Leaves;
    First(405928799, 0x16371c9b);
    var e: nat, x: nat := 1, 0x16371c9b;
    e, x := Odd(405928799, 0x16371c9b, e, x, 0xccb7a20);
    e, x := Odd(405928799, 0x16371c9b, e, x, 0x12a28b1b);
    e, x := Even(405928799, 0x16371c9b, e, x, 0xb91205c);
    e, x := Even(405928799, 0x16371c9b, e, x, 0x6f84821);
    e, x := Odd(405928799, 0x16371c9b, e, x, 0x101c03df);
    e, x := Odd(405928799, 0x16371c9b, e, x, 0x7131865);
    e, x := Even(405928799, 0x16371c9b, e, x, 0x1ae12ed);
    e, x := Odd(405928799, 0x16371c9b, e, x, 0xe05d149);
    e, x := Even(405928799, 0x16371c9b, e, x, 0xfc706c3);
    e, x := Odd(405928799, 0x16371c9b, e, x, 0x17e863af);
    e, x := Odd(405928799, 0x16371c9b, e, x, 0xcddc2ef);
  }

  lemma PrimeOf29BitsSecond()
    ensures Leaves(405928799, 0x16371c9b, 11, 0x754aefa)
  {
    hide Leaves;
    First(405928799, 0x16371c9b);
    var e: nat, x: nat := 1, 0x16371c9b;
    e, x := Even(405928799, 0x16371c9b, e, x, 0x34499d2);
    e, x := Odd(405928799, 0x16371c9b, e, x, 0x564bcb0);
    e, x := Odd(405928799, 0x16371c9b, e, x, 0x754aefa);
  }

  lemma PrimeOf29BitsFull()
    ensures Leaves(405928799, 0xcddc2ef, 11, 1)
  {
    hide Leaves;
    First(405928799, 0xcddc2ef);
    var e: nat, x: nat := 1, 0xcddc2ef;
    e, x := Even(405928799, 0xcddc2ef, e, x, 0x74ebb1a);
    e, x := Odd(405928799, 0xcddc2ef, e, x, 0x1435a2f2);
    e, x := Odd(405928799, 0xcddc2ef, e, x, 1);
  }

  /** Certified by 3691 and 11. */
  lemma PrimeOf29Bits()
    ensures Prime(405928799)
  {
    hide Leaves;
    PrimeOf12Bits();
    SmallPrime(11);
    PrimeOf29BitsFirst();
    PrimeOf29BitsSecond();
    PrimeOf29BitsFull();
    CertifiedByTwo(405928799, 0x16371c9b, 3691, 11,
                   0xcddc2ef, 0xc510e6d, 0x68cb1cb,
                   0x754aefa, 0xa255a2b, 0x312f56e);
  }

  lemma PrimeOf30BitsFirst()
    ensures Leaves(639533339, 0x1233516f, 853, 0x102bafbb)
  {
    hide Leaves;
    First(639533339, 0x1233516f);
    var e: nat, x: nat := 1, 0x1233516f;
    e, x := Odd(639533339, 0x1233516f, e, x, 0x11fbd59c);
    e, x := Even(639533339, 0x1233516f, e, x, 0x153f30ae);
    e, x := Odd(639533339, 0x1233516f, e, x, 0x1ad6e87a);
    e, x := Even(639533339, 0x1233516f, e, x, 0x17ed0ef4);
    e, x := Odd(639533339, 0x1233516f, e, x, 0x1f5b0497);
    e, x := Even(639533339, 0x1233516f, e, x, 0x85b4bf1);
    e, x := Odd(639533339, 0x1233516f, e, x, 0x1c44c08f);
    e, x := Even(639533339, 0x1233516f, e, x, 0x6fc51c4);
    e, x := Odd(639533339, 0x1233516f, e, x, 0x102bafbb);
  }

  lemma PrimeOf30BitsSecond()
    ensures Leaves(639533339, 0x1233516f, 229, 0xf4320ed)
  {
    hide Leaves;
    First(639533339, 0x1233516f);
    var e: nat, x: nat := 1, 0x1233516f;
    e, x := Odd(639533339, 0x1233516f, e, x, 0x11fbd59c);
    e, x := Odd(639533339, 0x1233516f, e, x, 0x1f80cddc);
    e, x := Even(639533339, 0x1233516f, e, x, 0x7dc2ea9);
    e, x := Even(639533339, 0x1233516f, e, x, 0x15f0d364);
    e, x := Odd(639533339, 0x1233516f, e, x, 0xb8d9836);
    e, x := Even(639533339, 0x1233516f, e, x, 0x24140b53);
    e, x := Odd(639533339, 0x1233516f, e, x, 0xf4320ed);
  }

  lemma PrimeOf30BitsFull()
    ensures Leaves(639533339, 0x102bafbb, 229, 1)
  {
    hide Leaves;
    First(639533339, 0x102bafbb);
    var e: nat, x: nat := 1, 0x102bafbb;
    e, x := Odd(639533339, 0x102bafbb, e, x, 0x19be16e7);
    e, x := Odd(639533339, 0x102bafbb, e, x, 0x1e62102c);
    e, x := Even(639533339, 0x102bafbb, e, x, 0x3ed5fab);
    e, x := Even(639533339, 0x102bafbb, e, x, 0x10f4801b);
    e, x := Odd(639533339, 0x102bafbb, e, x, 0xa195de0);
    e, x := Even(639533339, 0x102bafbb, e, x, 0x1cb732ff);
    e, x := Odd(639533339, 0x102bafbb, e, x, 1);
  }

  /** Certified by 853 and 229. */
  lemma PrimeOf30Bits()
    ensures Prime(639533339)
  {
    hide Leaves;
    SmallPrime(853);
    SmallPrime(229);
    PrimeOf30BitsFirst();
    PrimeOf30BitsSecond();
    PrimeOf30BitsFull();
    CertifiedByTwo(639533339, 0x1233516f, 853, 229,
                   0x102bafbb, 0xaa69589, 0x484a72b,
                   0xf4320ed, 0x121e58af, 0x7411c29);
  }

  lemma PrimeOf56BitsPowerA()
    ensures Leaves(65865678001877903, 0x1e8949ee7b99cf, 312272, 0x7d096634ef467f)
  {
    hide Leaves;
    First(65865678001877903, 0x1e8949ee7b99cf);
    var e: nat, x: nat := 1, 0x1e8949ee7b99cf;
    e, x := Even(65865678001877903, 0x1e8949ee7b99cf, e, x, 0x444e024ec9bced);
    e, x := Even(65865678001877903, 0x1e8949ee7b99cf, e, x, 0xca6465eb42ad9e);
    e, x := Odd(65865678001877903, 0x1e8949ee7b99cf, e, x, 0x421f33f000ea31);
    e, x := Odd(65865678001877903, 0x1e8949ee7b99cf, e, x, 0x9b5ffa4123e5b0);
    e, x := Even(65865678001877903, 0x1e8949ee7b99cf, e, x, 0xac1eaad9857fc7);
    e, x := Even(65865678001877903, 0x1e8949ee7b99cf, e, x, 0xe649ccead27df0);
    e, x := Even(65865678001877903, 0x1e8949ee7b99cf, e, x, 0xb65c5b26bbff1d);
    e, x := Even(65865678001877903, 0x1e8949ee7b99cf, e, x, 0xd9bb821ae8b700);
    e, x := Odd(65865678001877903, 0x1e8949ee7b99cf, e, x, 0xcfb5bdab93615b);
    e, x := Odd(65865678001877903, 0x1e8949ee7b99cf, e, x, 0x59639e226c0b65);
    e, x := Odd(65865678001877903, 0x1e8949ee7b99cf, e, x, 0x99c5827e71ca0e);
    e, x := Odd(65865678001877903, 0x1e8949ee7b99cf, e, x, 0x3e66ea8db9c46c);
    e, x := Even(65865678001877903, 0x1e8949ee7b99cf, e, x, 0xc486e176cfbf54);
    e, x := Odd(65865678001877903, 0x1e8949ee7b99cf, e, x, 0x39e8cbd8ba1ee);
    e, x := Even(65865678001877903, 0x1e8949ee7b99cf, e, x, 0x2b9a1658505ad8);
    e, x := Even(65865678001877903, 0x1e8949ee7b99cf, e, x, 0xd6e88a60365447);
    e, x := Even(65865678001877903, 0x1e8949ee7b99cf, e, x, 0xb67c71f5143fd4);
    e, x := Even(65865678001877903, 0x1e8949ee7b99cf, e, x, 0x7d096634ef467f);
  }

  lemma PrimeOf56BitsPower()
    ensures Leaves(65865678001877903, 0x1e8949ee7b99cf, 639533339, 1)
  {
    hide Leaves;
    PrimeOf56BitsPowerA();
    var e: nat, x: nat := 312272, 0x7d096634ef467f;
    e, x := Even(65865678001877903, 0x1e8949ee7b99cf, e, x, 0x946c1015294647);
    e, x := Even(65865678001877903, 0x1e8949ee7b99cf, e, x, 0x88a26b9a7c19e8);
    e, x := Odd(65865678001877903, 0x1e8949ee7b99cf, e, x, 0x78f701b4ebc838);
    e, x := Even(65865678001877903, 0x1e8949ee7b99cf, e, x, 0xe3e1cf3b53edb9);
    e, x := Even(65865678001877903, 0x1e8949ee7b99cf, e, x, 0x196fe366bd4445);
    e, x := Even(65865678001877903, 0x1e8949ee7b99cf, e, x, 0x757500329b41c8);
    e, x := Odd(65865678001877903, 0x1e8949ee7b99cf, e, x, 0xa1cf78126f730b);
    e, x := Odd(65865678001877903, 0x1e8949ee7b99cf, e, x, 0xd7639825304061);
    e, x := Even(65865678001877903, 0x1e8949ee7b99cf, e, x, 0xca920e3b244852);
    e, x := Odd(65865678001877903, 0x1e8949ee7b99cf, e, x, 0xb66e83919a59b7);
    e, x := Odd(65865678001877903, 0x1e8949ee7b99cf, e, x, 1);
  }

  /** Certified by the prime of 30 bits. */
  lemma PrimeOf56Bits()
    ensures Prime(65865678001877903)
  {
    hide Leaves;
    PrimeOf30Bits();
    PrimeOf56BitsPower();
    CertifiedByOne(65865678001877903, 0x1e8949ee7b99cf, 639533339, 0x8aac914b371ee1, 0x1218ad8faaa2a3);
  }

  lemma PrimeOf94BitsPowerA()
    ensures Leaves(13818364434197438864469338081, 0x19a3e92405bebb4bd6527e50, 479235, 0x6666b9237bfae9a5fbcd45)
  {
    hide Leaves;
    First(13818364434197438864469338081, 0x19a3e92405bebb4bd6527e50);
    var e: nat, x: nat := 1, 0x19a3e92405bebb4bd6527e50;
    e, x := Odd(13818364434197438864469338081, 0x19a3e92405bebb4bd6527e50, e, x, 0x1377743336b03795709a3dfc);
    e, x := Odd(13818364434197438864469338081, 0x19a3e92405bebb4bd6527e50, e, x, 0x29dd6322677c53601f9b8f1d);
    e, x := Even(13818364434197438864469338081, 0x19a3e92405bebb4bd6527e50, e, x, 0x2a1ccadc2fe323cbf7f65a7b);
    e, x := Odd(13818364434197438864469338081, 0x19a3e92405bebb4bd6527e50, e, x, 0x1e1b137ff36a324a4ae6d9d7);
    e, x := Even(13818364434197438864469338081, 0x19a3e92405bebb4bd6527e50, e, x, 0xb447ed7839e5ced0e9416cb);
    e, x := Odd(13818364434197438864469338081, 0x19a3e92405bebb4bd6527e50, e, x, 0x1cfc319e15305a5bb2514c73);
    e, x := Even(13818364434197438864469338081, 0x19a3e92405bebb4bd6527e50, e, x, 0x2a2849632887881fe9aa8518);
    e, x := Even(13818364434197438864469338081, 0x19a3e92405bebb4bd6527e50, e, x, 0x59be5bf25ef4f4c96b71ceb);
    e, x := Even(13818364434197438864469338081, 0x19a3e92405bebb4bd6527e50, e, x, 0x75c33d0907400032cdc3981);
    e, x := Even(13818364434197438864469338081, 0x19a3e92405bebb4bd6527e50, e, x, 0x21c9b255c4936e4d095aba87);
    e, x := Even(13818364434197438864469338081, 0x19a3e92405bebb4bd6527e50, e, x, 0x256c79b3a74dd54db5dc03a0);
    e, x := Even(13818364434197438864469338081, 0x19a3e92405bebb4bd6527e50, e, x, 0xe59669e756e8e998d55b865);
    e, x := Even(13818364434197438864469338081, 0x19a3e92405bebb4bd6527e50, e, x, 0x1b0aa2759336eca181645bce);
    e, x := Even(13818364434197438864469338081, 0x19a3e92405bebb4bd6527e50, e, x, 0x1ded7c80a2b12c7bb762ae60);
    e, x := Even(13818364434197438864469338081, 0x19a3e92405bebb4bd6527e50, e, x, 0x21a5825f715c9f16a80314d1);
    e, x := Even(13818364434197438864469338081, 0x19a3e92405bebb4bd6527e50, e, x, 0x254b30aadbc19fa27ec1011a);
    e, x := Odd(13818364434197438864469338081, 0x19a3e92405bebb4bd6527e50, e, x, 0xd367c05503bac9d6419e6a5);
    e, x := Odd(13818364434197438864469338081, 0x19a3e92405bebb4bd6527e50, e, x, 0x6666b9237bfae9a5fbcd45);
  }

  lemma PrimeOf94BitsPowerB()
    ensures Leaves(13818364434197438864469338081, 0x19a3e92405bebb4bd6527e50, 125628810886, 0x174fe46632dcb2d184f7a48e)
  {
    hide Leaves;
    PrimeOf94BitsPowerA();
    var e: nat, x: nat := 479235, 0x6666b9237bfae9a5fbcd45;
    e, x := Odd(13818364434197438864469338081, 0x19a3e92405bebb4bd6527e50, e, x, 0xce957194f4106347ba8851c);
    e, x := Odd(13818364434197438864469338081, 0x19a3e92405bebb4bd6527e50, e, x, 0x174e96b90d33704bca99dee7);
    e, x := Odd(13818364434197438864469338081, 0x19a3e92405bebb4bd6527e50, e, x, 0xa94bd527b6649b7cab81bfb);
    e, x := Even(13818364434197438864469338081, 0x19a3e92405bebb4bd6527e50, e, x, 0x19261ecd3a311dac4e5004f4);
    e, x := Even(13818364434197438864469338081, 0x19a3e92405bebb4bd6527e50, e, x, 0x273788c4a10bc624c6c33619);
    e, x := Even(13818364434197438864469338081, 0x19a3e92405bebb4bd6527e50, e, x, 0x26f062ff9dc36e7f330c116);
    e, x := Even(13818364434197438864469338081, 0x19a3e92405bebb4bd6527e50, e, x, 0x1ea1aef1dc016f24d376e6e3);
    e, x := Odd(13818364434197438864469338081, 0x19a3e92405bebb4bd6527e50, e, x, 0x2150627447f80d425b750ae7);
    e, x := Odd(13818364434197438864469338081, 0x19a3e92405bebb4bd6527e50, e, x, 0xa241be77843f0927716a343);
    e, x := Even(13818364434197438864469338081, 0x19a3e92405bebb4bd6527e50, e, x, 0x285629362a5c555ffa9ef2f9);
    e, x := Odd(13818364434197438864469338081, 0x19a3e92405bebb4bd6527e50, e, x, 0x75f2340be930d65f861b611);
    e, x := Even(13818364434197438864469338081, 0x19a3e92405bebb4bd6527e50, e, x, 0x1b3f02289bfe9b3461e9a7a3);
    e, x := Even(13818364434197438864469338081, 0x19a3e92405bebb4bd6527e50, e, x, 0x1e01d89f21bbcb33354f621a);
    e, x := Even(13818364434197438864469338081, 0x19a3e92405bebb4bd6527e50, e, x, 0x17bfb88f93eb4891faa4a291);
    e, x := Even(13818364434197438864469338081, 0x19a3e92405bebb4bd6527e50, e, x, 0x2452589b30bf4ec4d0dbca32);
    e, x := Odd(13818364434197438864469338081, 0x19a3e92405bebb4bd6527e50, e, x, 0x21e9b5b44c62f77b58be4e16);
    e, x := Odd(13818364434197438864469338081, 0x19a3e92405bebb4bd6527e50, e, x, 0x611cbea0101c8219feaa757);
    e, x := Even(13818364434197438864469338081, 0x19a3e92405bebb4bd6527e50, e, x, 0x174fe46632dcb2d184f7a48e);
  }

  lemma PrimeOf94BitsPowerC()
    ensures Leaves(13818364434197438864469338081, 0x19a3e92405bebb4bd6527e50, 32932839000938951, 0x174ec4335b0352e468e4b618)
  {
    hide Leaves;
    PrimeOf94BitsPowerB();
    var e: nat, x: nat := 125628810886, 0x174fe46632dcb2d184f7a48e;
    e, x := Even(13818364434197438864469338081, 0x19a3e92405bebb4bd6527e50, e, x, 0x1b12d250a91c5ea809f78c5e);
    e, x := Even(13818364434197438864469338081, 0x19a3e92405bebb4bd6527e50, e, x, 0x29b1c7dcbbb1efce4434fc59);
    e, x := Odd(13818364434197438864469338081, 0x19a3e92405bebb4bd6527e50, e, x, 0x2251208b9ca0ee7b6ace2256);
    e, x := Even(13818364434197438864469338081, 0x19a3e92405bebb4bd6527e50, e, x, 0x83f3c33f2d6756b21a262aa);
    e, x := Even(13818364434197438864469338081, 0x19a3e92405bebb4bd6527e50, e, x, 0x4da7b262650460a5798fb7);
    e, x := Odd(13818364434197438864469338081, 0x19a3e92405bebb4bd6527e50, e, x, 0x12f0b8f09b9f2ff90bd7e637);
    e, x := Odd(13818364434197438864469338081, 0x19a3e92405bebb4bd6527e50, e, x, 0x127829bc6a9b3d50afa90311);
    e, x := Even(13818364434197438864469338081, 0x19a3e92405bebb4bd6527e50, e, x, 0x1e19df92d17a8bd855584f71);
    e, x := Even(13818364434197438864469338081, 0x19a3e92405bebb4bd6527e50, e, x, 0x16668b3d4c5c3d8ee04830dd);
    e, x := Odd(13818364434197438864469338081, 0x19a3e92405bebb4bd6527e50, e, x, 0x9f6d40fde8b4957e29ce599);
    e, x := Odd(13818364434197438864469338081, 0x19a3e92405bebb4bd6527e50, e, x, 0xa18470a66e409a1ec145373);
    e, x := Odd(13818364434197438864469338081, 0x19a3e92405bebb4bd6527e50, e, x, 0x9e16e62fcf21495b4bacce2);
    e, x := Even(13818364434197438864469338081, 0x19a3e92405bebb4bd6527e50, e, x, 0xc78928c0f6bcc9fcedc74de);
    e, x := Even(13818364434197438864469338081, 0x19a3e92405bebb4bd6527e50, e, x, 0x142eb1294b5eef14840542a3);
    e, x := Even(13818364434197438864469338081, 0x19a3e92405bebb4bd6527e50, e, x, 0x18a2fea047d7d0de7989a763);
    e, x := Odd(13818364434197438864469338081, 0x19a3e92405bebb4bd6527e50, e, x, 0x1295d3396a19afe2000e24e3);
    e, x := Odd(13818364434197438864469338081, 0x19a3e92405bebb4bd6527e50, e, x, 0x1dd1ccc1a22f7ab9c010bed0);
    e, x := Odd(13818364434197438864469338081, 0x19a3e92405bebb4bd6527e50, e, x, 0x174ec4335b0352e468e4b618);
  }

  lemma PrimeOf94BitsPower()
    ensures Leaves(13818364434197438864469338081, 0x19a3e92405bebb4bd6527e50, 65865678001877903, 1)
  {
    hide Leaves;
    PrimeOf94BitsPowerC();
    var e: nat, x: nat := 32932839000938951, 0x174ec4335b0352e468e4b618;
    e, x := Odd(13818364434197438864469338081, 0x19a3e92405bebb4bd6527e50, e, x, 1);
  }

  /** Certified by the prime of 56 bits. */
  lemma PrimeOf94Bits()
    ensures Prime(13818364434197438864469338081)
  {
    hide Leaves;
    PrimeOf56Bits();
    PrimeOf94BitsPower();
    CertifiedByOne(13818364434197438864469338081, 0x19a3e92405bebb4bd6527e50, 65865678001877903, 0x27af4995b5c971ff1be1666a, 0x16ca0897b6da76cad031a955);
  }

  // ---- the modulus -----------------------------------------------------------------------------------

  // An element of order (at least) the product of the three primes.
  const ELEMENT: nat := 0x22e023d74d702cd09a58d271f7751728560b02aee57a9011438ececad1bce047

  lemma PowerPA()
    ensures Leaves(Q, ELEMENT, 365769, 0xa23b6ce308dbbf3c40d301226453d42390631a1d8b50446085d1f81070f7d4e)
  {
    hide Leaves;
    First(Q, ELEMENT);
    var e: nat, x: nat := 1, 0x22e023d74d702cd09a58d271f7751728560b02aee57a9011438ececad1bce047;
    e, x := Even(Q, ELEMENT, e, x, 0x119b7c7925d7b84c533cc488f589ca28e91480d543e8889d281df53f957be0f9);
    e, x := Odd(Q, ELEMENT, e, x, 0xeebcc19cfbfd08808fc0b547e1cb6d9c0cdd5d45d105b7f5ffdd5af813ecbfa);
    e, x := Odd(Q, ELEMENT, e, x, 0x2b5f31eba1618c0b43125f1c5db25e5087c175a149209ddd03b6fd321498ad66);
    e, x := Even(Q, ELEMENT, e, x, 0x12b4e8d6acedd374017e05c16a1401a0b0c011c35282547001e296e4db0022b0);
    e, x := Even(Q, ELEMENT, e, x, 0x22f8bad6341d42f55670902a9c62fd2f05a14b7e171b4c4aac3db06db7e84b53);
    e, x := Odd(Q, ELEMENT, e, x, 0x6c12f94702e34e3283b2f7e25aa48d350125d5f2b024a2dc30fbdce6f1dbe3d);
    e, x := Even(Q, ELEMENT, e, x, 0x2a6ac80351e6caf5405e39a8cb3aaf52a95db946474243e5b593aee3a5dc52aa);
    e, x := Odd(Q, ELEMENT, e, x, 0x171c0585781aaee2cfc18abf0dde846cc6eec0ff8fd38f18589ffb591b0130a1);
    e, x := Even(Q, ELEMENT, e, x, 0x1bb6351ed81df0af9392f83b5412e3a5168a5f4d0eb5f82f895c197f6bde3cfe);
    e, x := Even(Q, ELEMENT, e, x, 0x21e7a51717c7405e717fe48ef5755a4c7ce8a90947a4ef9cd43d376c2db47f5a);
    e, x := Odd(Q, ELEMENT, e, x, 0x312f7502de8255ffb5d2abff9e636c26306d51d50726442eb4245ca31ba65c7);
    e, x := Odd(Q, ELEMENT, e, x, 0x2e9ecb8f3101ab136bb81cdc899463b6231920a4435847c904e1050f7f69809b);
    e, x := Even(Q, ELEMENT, e, x, 0x250dbe4d39c8d1525101583857b2c24abaddca850abae1eb3b3113de20f0f624);
    e, x := Even(Q, ELEMENT, e, x, 0x145184ccfa79648590e720f17e38a8988e9cccf3f209b021295c9affb1ffcaf2);
    e, x := Odd(Q, ELEMENT, e, x, 0x8c658393468439a9d55c960e2db443c311f8044eac20f38d14572b6097751d9);
    e, x := Even(Q, ELEMENT, e, x, 0x2e1eff959432561c2d60619bac9e678ecb1355f6903713cb3382bd2aea58f099);
    e, x := Even(Q, ELEMENT, e, x, 0x2c1e1632c44d434f077247d7b265a6cf557c618d1bc09f6d65917f06c14dc974);
    e, x := Odd(Q, ELEMENT, e, x, 0xa23b6ce308dbbf3c40d301226453d42390631a1d8b50446085d1f81070f7d4e);
  }

  lemma PowerPB()
    ensures Leaves(Q, ELEMENT, 95884164734, 0x2af1de12f8bd525331919f890f6d60334dbcbd658974b30789b5337c3859067b)
  {
    hide Leaves;
    PowerPA();
    var e: nat, x: nat := 365769, 0xa23b6ce308dbbf3c40d301226453d42390631a1d8b50446085d1f81070f7d4e;
    e, x := Even(Q, ELEMENT, e, x, 0x2e2a09b19a4ae53781ad2e3b9e0d88c9b339c797fa2a3b6c3513aba92b2fb8a1);
    e, x := Even(Q, ELEMENT, e, x, 0x186f5d2a86524eecd33e946a9659193681b8bcc0fcd855ec2210839760921a09);
    e, x := Even(Q, ELEMENT, e, x, 0xa1d3a018b9f1c41a6bc09edb271d315eff589a22e2ef5f080ee63f87d9f30d4);
    e, x := Even(Q, ELEMENT, e, x, 0x20e6f3e2c81c2443a7c4e41c3b360b38b50fc0c7d9543a43a3724f9ebebbf8a7);
    e, x := Odd(Q, ELEMENT, e, x, 0x1f42aba33940177eaf4d6e54b078b8d0dfb06ee290e2d943323aedf358316941);
    e, x := Odd(Q, ELEMENT, e, x, 0x3d01b61a931ee9f18f2a945bd9b6a8c2e32b13fb5cb6195365e62e23f38b0d0);
    e, x := Odd(Q, ELEMENT, e, x, 0x504e8a2e60db9b60df08fc3c39c2be56d94d2a6b854df9ea0c6857bfa20df32);
    e, x := Odd(Q, ELEMENT, e, x, 0xaa4198c1261f38324a9fd640523f74b5b5656789b3f8aa71e3ffc2bb1e6f5f1);
    e, x := Odd(Q, ELEMENT, e, x, 0x5f2d32964246f41c55f8a5c0dd74b7c3b1788d97d740583bc41e1d4231565d1);
    e, x := Even(Q, ELEMENT, e, x, 0x291288ef45e404d69aaab2248376be6c57efd6f437a7c9a7c85c9cbfa27e4b54);
    e, x := Even(Q, ELEMENT, e, x, 0x2f455fd774b711466c73e720edbe24e0f02d03f45ac440afdabf184da31e33ca);
    e, x := Odd(Q, ELEMENT, e, x, 0x2541dc2f5b2f5182f9e55723285659a171261be752316d77c0d572fa9bd1ef00);
    e, x := Odd(Q, ELEMENT, e, x, 0x1802cb3979a088905401bfef75d135c9cc6e0354bc4bbd83a3efc3471afd9e86);
    e, x := Odd(Q, ELEMENT, e, x, 0x4e796a43af5f11b18ddac6ca62505c1c92ac52d2818998e2a94e626c10145a2);
    e, x := Odd(Q, ELEMENT, e, x, 0x1b3ca325692b5b02fb0ecad9457c6d62cf9183aeed686a4d2bb11d7ac31c4636);
    e, x := Odd(Q, ELEMENT, e, x, 0x18a48d8c609d0cc9feebe603ccd3385e22029705fc302e9aae01c276a588de5b);
    e, x := Odd(Q, ELEMENT, e, x, 0x231d85fab784b79ed8aee28d3f4ebb7b68ebc0be1422e12eb24956104ca12cc);
    e, x := Even(Q, ELEMENT, e, x, 0x2af1de12f8bd525331919f890f6d60334dbcbd658974b30789b5337c3859067b);
  }

  lemma PowerPC()
    ensures Leaves(Q, ELEMENT, 25135458480140075, 0x236390cf47bfd9f7baa0f09c874b95c04c4ddf830ddf9b9b13c1cf91b28e4d70)
  {
    hide Leaves;
    PowerPB();
    var e: nat, x: nat := 95884164734, 0x2af1de12f8bd525331919f890f6d60334dbcbd658974b30789b5337c3859067b;
    e, x := Even(Q, ELEMENT, e, x, 0x29948f3c964fe39deb4957da28c70784c2fcadcf284b9d03b9ab7652ccb8d498);
    e, x := Odd(Q, ELEMENT, e, x, 0x2ab89fc09d43b6afb0ae20e1e69c2245a0394bcc849e841a6714fb31f4b3b4c5);
    e, x := Odd(Q, ELEMENT, e, x, 0x2107d755ac8ca27cdba50a34c7ea28a195a118b031cd73ebe9d96eed9e7f45e8);
    e, x := Even(Q, ELEMENT, e, x, 0x26b5390309eb5b8843fafa9d7a175b07849d56f0f928f11ca0e6a69fd4a07f9c);
    e, x := Odd(Q, ELEMENT, e, x, 0x1d9398601df3b2da83eba2d28f28d72deb87dacc5db409834da30e56587949fb);
    e, x := Even(Q, ELEMENT, e, x, 0x6ce7fb386b09d331a06d2a79b2e1051f3737f2718fa941394858a8b5b9c6f8c);
    e, x := Odd(Q, ELEMENT, e, x, 0x21eefc08fde620c8b0bd73581a937bb5ce9399e8929773122927aaa855eedebc);
    e, x := Odd(Q, ELEMENT, e, x, 0x2e53ff5d42b2be8316787a413dd431386bf3cd713de896518e8a1fc48c4f38a9);
    e, x := Odd(Q, ELEMENT, e, x, 0x1667ae9b1266a43dd6b7c47377f302a57ddcc61138a442a2431fbe673e38e61c);
    e, x := Odd(Q, ELEMENT, e, x, 0x1c4dc86990748548013ceac46177340a7f52e382947a77c9c539921a3d449c2);
    e, x := Even(Q, ELEMENT, e, x, 0x2d0d3615887335ba0cd605d777b2319dd38733f433a926209a1f5a8718f06097);
    e, x := Even(Q, ELEMENT, e, x, 0x22761b66837f568607107575a40fc460ea61f9b2bae649fbf31b530710a71788);
    e, x := Odd(Q, ELEMENT, e, x, 0x27ba66cc641297f52c4e0156249e77fc4ff774b630fb83d41ce5e7a99bdf7754);
    e, x := Even(Q, ELEMENT, e, x, 0xf2967d33161ad021d93d8fc6f4518557ce374c54c999be6f3978a4300710df2);
    e, x := Odd(Q, ELEMENT, e, x, 0x1b2f48216efb6df900b88c5da90872a037e7154e8cecdbfc0ea568f1bbb7eba8);
    e, x := Even(Q, ELEMENT, e, x, 0x1816e8fff475619b3acb69d7aa0dd6e93d8b4716cc908b3f265664a4114333fe);
    e, x := Odd(Q, ELEMENT, e, x, 0x2690ac7e30e3ab21240a8aa39c5ad40499c39d67adaafb65afb9bf53ef4f792c);
    e, x := Odd(Q, ELEMENT, e, x, 0x236390cf47bfd9f7baa0f09c874b95c04c4ddf830ddf9b9b13c1cf91b28e4d70);
  }

  lemma PowerPD()
    ensures Leaves(Q, ELEMENT, 6589109627817840034708, 0xd35050e70ff8d065b70b5c8cb1407350733bbcbd6ad2f52e0fc7069b43031fc)
  {
    hide Leaves;
    PowerPC();
    var e: nat, x: nat := 25135458480140075, 0x236390cf47bfd9f7baa0f09c874b95c04c4ddf830ddf9b9b13c1cf91b28e4d70;
    e, x := Odd(Q, ELEMENT, e, x, 0x3b63fdb478c130918979d1c3845418faa0b4619cbb4a431eb28dac99012ec61);
    e, x := Odd(Q, ELEMENT, e, x, 0x1cf0997cff0f7b67b8f9550768fb833c4806c4b8245f3d684b18f7893c840ac4);
    e, x := Even(Q, ELEMENT, e, x, 0x23a14e7546674ecd5965cfff7ea74b5ce7023da802af8447cf6411a401c2e5b3);
    e, x := Odd(Q, ELEMENT, e, x, 0xb5d9a89feeb595f359b4d706f1a44dc6b9a2a63e20c015006a954c01767a80a);
    e, x := Even(Q, ELEMENT, e, x, 0x2d6981dc9274ea2d64026190e37503581c16d8846fc2be8d63e873986f37e35c);
    e, x := Even(Q, ELEMENT, e, x, 0x96436cbc0fb022190032a7b6e615134a9c9433aafea32164463471a3a72973a);
    e, x := Even(Q, ELEMENT, e, x, 0x241bd9efff601981e058e5ada73eba7685b614593d1ed44b30a792fed1df885e);
    e, x := Even(Q, ELEMENT, e, x, 0x2722764fa52556d97b6c72ae67df1ca36ac69e217753247aa5b5099fb7bbb0b0);
    e, x := Odd(Q, ELEMENT, e, x, 0x79a1c72f0b955d8690246ba8dff38e4d0a82aa7c0506d9568b9659cbf1ed920);
    e, x := Odd(Q, ELEMENT, e, x, 0x278deac74862efdc0fe8afabb17c67f648377cd89adb9b77f32d5a9ff1047bff);
    e, x := Odd(Q, ELEMENT, e, x, 0x5fceeabaadd00a4435ce5d8801e7976254ca7223b603b7319afe2a6828c9667);
    e, x := Even(Q, ELEMENT, e, x, 0x2358c0ade72f7f54d7e307430b004a4615d088cee8445f14338df1b82721c024);
    e, x := Even(Q, ELEMENT, e, x, 0x7d14970f8f9ad0bbd1b8d6631385cf370de8393927b7e110d76c8b9aff39b9c);
    e, x := Odd(Q, ELEMENT, e, x, 0x15a917db5ccf5074f2d9cde5cc77657f04df354f054564ae452f6dd33a5b6d3a);
    e, x := Even(Q, ELEMENT, e, x, 0x2731775df380a29583456bf242f7686914c07548c3b17b7ebfd4c175bb7ed93e);
    e, x := Odd(Q, ELEMENT, e, x, 0x210019c76788032e6adaa4c9c9e4c9ebf101f7f4c7380616339b489be392c974);
    e, x := Even(Q, ELEMENT, e, x, 0x28290081853c783cdd812e9e455073bc5ecb7ef5b4157a45de4b467db3b3e8bd);
    e, x := Even(Q, ELEMENT, e, x, 0xd35050e70ff8d065b70b5c8cb1407350733bbcbd6ad2f52e0fc7069b43031fc);
  }

  lemma PowerPE()
    ensures Leaves(Q, ELEMENT, 1727295554274679858058667260, 0x123ecc376cb3724d4512e0b0bac47b2a5b94ae1e34323b13eeb86bf66b49bf0a)
  {
    hide Leaves;
    PowerPD();
    var e: nat, x: nat := 6589109627817840034708, 0xd35050e70ff8d065b70b5c8cb1407350733bbcbd6ad2f52e0fc7069b43031fc;
    e, x := Odd(Q, ELEMENT, e, x, 0x29782cdbbb2373b2b7b49206e6bf156ed174c995674d65a3af79c417d37ec1ed);
    e, x := Even(Q, ELEMENT, e, x, 0x2f968f3fe90003e67c027053dcd3aefc1d1fbe9d7fe2ee6ac11483b8c9a239ab);
    e, x := Odd(Q, ELEMENT, e, x, 0xd054034767355c39ed531dc23b4e9a54d58729e658a37ec3e30eb6f99016a33);
    e, x := Even(Q, ELEMENT, e, x, 0x191395b9f6c5f14b49ccd1c79aaea959db32a0bb6253aa41552311c36404eedf);
    e, x := Odd(Q, ELEMENT, e, x, 0x1f98be63e9cc7992c2b3064f315ae50261e0846107013713d6db1e47e9209faa);
    e, x := Even(Q, ELEMENT, e, x, 0x2a32a7c9ebc2421725d8e4d8059b82a3e77847e1dee2fa689671b757fd745f7a);
    e, x := Even(Q, ELEMENT, e, x, 0x18784d449af6c6a05e31e58a48f035631e60703823da0febcc7f807fec6a187c);
    e, x := Odd(Q, ELEMENT, e, x, 0x2a8979436361794c981868c7a6163bcf1630ab753f0f8f4e4f157bd2c43e01e2);
    e, x := Even(Q, ELEMENT, e, x, 0x2c7e46b21476817b35d102f9be105ec3f96fc86b0f4c9158b659c0794d9f5580);
    e, x := Even(Q, ELEMENT, e, x, 0x2cdd0d98e43de4c66c72ecc94138d8f40f887385e62e37ada8db27bda1cf1c71);
    e, x := Odd(Q, ELEMENT, e, x, 0x2c46a3fb5713f5e55087151f903225652a1c44366d78d757aa21051a1d4e7f2a);
    e, x := Odd(Q, ELEMENT, e, x, 0x2b0cee91c9854f1a62f54d944348ef11d8f7d7b6aef37a8a63265d562523215a);
    e, x := Odd(Q, ELEMENT, e, x, 0x13f528d085c42f4842a60bbfbe0cbbadc98b9fbc277cde1d1d7853d4b8f3a6c5);
    e, x := Odd(Q, ELEMENT, e, x, 0x19a5bde5acefa1f277ffe683f167c0e863811d713800ad78141912f34e63cb7c);
    e, x := Odd(Q, ELEMENT, e, x, 0x92e3e87c8a8c058aa7ae98722259d94e3bb8cafbfa2ad3aec85a933fc54d905);
    e, x := Odd(Q, ELEMENT, e, x, 0x2c7c46d07aefa8d44560e4d510f7dcfb6e84b5334d0ab98bbd03c67c655d784c);
    e, x := Even(Q, ELEMENT, e, x, 0x1fd8e70cc6bd908ee04157ab2d877d94e4c093ea87e99a3b50797f9933f1e38f);
    e, x := Even(Q, ELEMENT, e, x, 0x123ecc376cb3724d4512e0b0bac47b2a5b94ae1e34323b13eeb86bf66b49bf0a);
  }

  lemma PowerP()
    ensures Leaves(Q, ELEMENT, 13818364434197438864469338081, 0x24c9db492bbe96bcdce9655e7ea9571288205c5a9035cc1dc7ece7e5889edcce)
  {
    hide Leaves;
    PowerPE();
    var e: nat, x: nat := 1727295554274679858058667260, 0x123ecc376cb3724d4512e0b0bac47b2a5b94ae1e34323b13eeb86bf66b49bf0a;
    e, x := Even(Q, ELEMENT, e, x, 0x2e92da433257471393be65276ba3b63410a2d8745019710fb53565d821840dad);
    e, x := Even(Q, ELEMENT, e, x, 0x284927b06751d2fac9cfc86707717e94be8252d60dd83f445d7c158de25cd096);
    e, x := Odd(Q, ELEMENT, e, x, 0x24c9db492bbe96bcdce9655e7ea9571288205c5a9035cc1dc7ece7e5889edcce);
  }

  // ELEMENT to the first prime
  const X: nat := 0x24c9db492bbe96bcdce9655e7ea9571288205c5a9035cc1dc7ece7e5889edcce

  lemma PowerPR()
    ensures Leaves(Q, X, 983, 0x1f71dad7e4fb79ba1f708024c70892fa92776221871259f75b5e48a34129fe36)
  {
    hide Leaves;
    First(Q, X);
    var e: nat, x: nat := 1, 0x24c9db492bbe96bcdce9655e7ea9571288205c5a9035cc1dc7ece7e5889edcce;
    e, x := Odd(Q, X, e, x, 0x12f36ae3dc3be9add515ee8b22e829655cecb185d63a3001708f1fec59b305a2);
    e, x := Odd(Q, X, e, x, 0x2a489badde5cc8747cb3ef2d6a742546f069aa4c9b9cc15637340206a36f9353);
    e, x := Odd(Q, X, e, x, 0xa5570a771fe30066f9ffa77ec2aa49b970da25906ecc37103b7a693a32daa52);
    e, x := Even(Q, X, e, x, 0x2dfc98460fc470731a6bcb0ff67a4f26785f84718d0c2e7d7ac942eefb6f52d8);
    e, x := Odd(Q, X, e, x, 0x1dceff871bdf1e239619f85f9ea5b69c531baeb505cfc748afc90ea240913f7b);
    e, x := Even(Q, X, e, x, 0x289d067dc751e7931e35d66fb52889753cac538595e61735c6b416e81a7674d8);
    e, x := Odd(Q, X, e, x, 0x1007639b43ed903f9b0a5b2c48a4fb6e613eff7bdad6a1b96bd86f7132f16b12);
    e, x := Odd(Q, X, e, x, 0x1ed0c4a523028436ffee83c58acd051860c1d3438d0baf8e7e8bedda8a9401c9);
    e, x := Odd(Q, X, e, x, 0x1f71dad7e4fb79ba1f708024c70892fa92776221871259f75b5e48a34129fe36);
  }

  lemma PowerPQA()
    ensures Leaves(Q, X, 396414, 0x1bd9d36d35e7b84c41c25ba7c7b3ebc4a43db8e4f610b11bc54df69b49226fb2)
  {
    hide Leaves;
    First(Q, X);
    var e: nat, x: nat := 1, 0x24c9db492bbe96bcdce9655e7ea9571288205c5a9035cc1dc7ece7e5889edcce;
    e, x := Odd(Q, X, e, x, 0x12f36ae3dc3be9add515ee8b22e829655cecb185d63a3001708f1fec59b305a2);
    e, x := Even(Q, X, e, x, 0x98d67a69705fd0c5e9f2ab05ca423e17d1d873948758bce87aa6672d97696b3);
    e, x := Even(Q, X, e, x, 0x1189f781952021d11631ef30496ecce992b597d868b1ab373e258fcfb3a6e10e);
    e, x := Even(Q, X, e, x, 0x20975c28d0f2e7df8f8325d4acd0b2e6440355f0140c2790279fdcbb13eb05d5);
    e, x := Even(Q, X, e, x, 0x2549005247fb61f5cb02b73ba06d1003b8658bd86716e63d70174bbd7be862d4);
    e, x := Even(Q, X, e, x, 0xcbc4f95b72d30fd9033bd6e8a499d0e9c7379ea70d75b79bd623beb4929700c);
    e, x := Odd(Q, X, e, x, 0x24d5c79fd5bbe461b623305d83295851def3afd7c3023283344816c10463ba7f);
    e, x := Odd(Q, X, e, x, 0x53813960b8685e43b2e452386a505eba732c97f368bf0cfeee0f756519e267e);
    e, x := Even(Q, X, e, x, 0x3345cccc94d69c3150f4d4e3bb74aa49fc568e2a07e84e4b2a9ff18872b7ac2);
    e, x := Even(Q, X, e, x, 0x2763d0896d2bbdcfb977b8b830de616232b7fc2b5ecd8a4c1f2c5e7df733a8fe);
    e, x := Even(Q, X, e, x, 0x77dabab0fff807d14be9a0e82c5f470833ff03c297c7b36f3832a622f5ec629);
    e, x := Odd(Q, X, e, x, 0x11e6486a3a0a803257e8b8cbea74e556fe6c1ba0ebcec996489a312ddc2a289a);
    e, x := Odd(Q, X, e, x, 0x11785d96202e97f21c1440e4280e4d92e2003f97d8a23e4147067012e3b65fad);
    e, x := Odd(Q, X, e, x, 0x1c13b1560ac3058906d9134d57efe972b9bdf9c15d760f2e40d46de1b86d66f1);
    e, x := Odd(Q, X, e, x, 0x10d6fbb03cf42865d894c7fd0c1d48c5af305ed78e8a9710ad121fbd97f11c82);
    e, x := Odd(Q, X, e, x, 0x2d3fd822fef07921cf64bbe0d6e8282761424b5531aafa77a0f78999f63c4244);
    e, x := Odd(Q, X, e, x, 0x2506610405ce32d43b4057e208507a6f87b2c156c94764a272ff0ffe7d30957d);
    e, x := Even(Q, X, e, x, 0x1bd9d36d35e7b84c41c25ba7c7b3ebc4a43db8e4f610b11bc54df69b49226fb2);
  }

  lemma PowerPQ()
    ensures Leaves(Q, X, 405928799, 0xfc1abc3a37f4ea9a023d3913ca1228ecfb449e0ec043785e19b9f1a7ce6a5d8)
  {
    hide Leaves;
    PowerPQA();
    var e: nat, x: nat := 396414, 0x1bd9d36d35e7b84c41c25ba7c7b3ebc4a43db8e4f610b11bc54df69b49226fb2;
    e, x := Odd(Q, X, e, x, 0x82cba7ac5f751a92452f5c3158ee3028a69cfd761ca4d51fa77c5112589c664);
    e, x := Odd(Q, X, e, x, 0x1c4a1ff35689e41a1f7d0a04285b5dd69a69dbf0c8782d2979d25c7daed80dca);
    e, x := Even(Q, X, e, x, 0x1e3472e737b3216da362f66f35c1baa306b176a3722c132890647ee4e99693aa);
    e, x := Odd(Q, X, e, x, 0x272cab16461173a3d5e6ef37965920a3297573f9c767a485562f1440af9f5a04);
    e, x := Even(Q, X, e, x, 0x56265eaef88de5403e73a3145e3b529d0d6b37a3452dcae2fd737887bcf6bdb);
    e, x := Odd(Q, X, e, x, 0x2d96c3286f0a1f128ca8fa7bec407bb8c6380a09b06010ae5c1b8665b5151dc2);
    e, x := Odd(Q, X, e, x, 0x60e69411f6a658862e4f9045f4bfc478e5c2502fa96cd1ced57bf9b2e86acfe);
    e, x := Odd(Q, X, e, x, 0x5209600bf959bacd1d1e531b17d84bf4574a25a695c7985f0f7962b365626a5);
    e, x := Odd(Q, X, e, x, 0x19342832c09ac3acf63559e948cccb9d6e4b9988067beb802b349a8a1b224ecc);
    e, x := Odd(Q, X, e, x, 0xfc1abc3a37f4ea9a023d3913ca1228ecfb449e0ec043785e19b9f1a7ce6a5d8);
  }

  const Z: nat := 0xfc1abc3a37f4ea9a023d3913ca1228ecfb449e0ec043785e19b9f1a7ce6a5d8

  lemma PowerPQR()
    ensures Leaves(Q, Z, 983, 1)
  {
    hide Leaves;
    First(Q, Z);
    var e: nat, x: nat := 1, 0xfc1abc3a37f4ea9a023d3913ca1228ecfb449e0ec043785e19b9f1a7ce6a5d8;
    e, x := Odd(Q, Z, e, x, 0x1bb5470ecb62e9de6e690bd92a1fc67df4f3ea76ac0615014a15793b9fd94b26);
    e, x := Odd(Q, Z, e, x, 0x3044bf240705bd413090f7d2af805393c47bf08e0e5bc6b7639c7b839cd472ea);
    e, x := Odd(Q, Z, e, x, 0x1006e9f5424e15c8f44b175d3c8ec15448a9f6cf0e92574d4a80a8116fb64118);
    e, x := Even(Q, Z, e, x, 0xdc40228bbb64eb4e4784b5ee7ad09b9d4736c81ad505d3de1ec216cf0745e67);
    e, x := Odd(Q, Z, e, x, 0x1ac55ba824bbe39d29676f59dace7c1efdf55c56be0399f3e6e95e2a3d3e61);
    e, x := Even(Q, Z, e, x, 0x1d5c21c4c77ec8fad5e35d5a5ff6def6ddb096fdc4ed756b6357e275a509425c);
    e, x := Odd(Q, Z, e, x, 0x289d6da53e49d16a8db6c3257682e7fe99bb5fb7ec2d011f2a7094fca1fda752);
    e, x := Odd(Q, Z, e, x, 0x28d10e78c4f0074a34e04771967af79a4e545d01a510ef9f3910ddc14ee654ad);
    e, x := Odd(Q, Z, e, x, 1);
  }

  lemma PowerQA()
    ensures Leaves(Q, ELEMENT, 396414, 0x2f00fb287ab7f3761e2604d8e72ab7f4331a7012bf016f087735d3f44bb8e782)
  {
    hide Leaves;
    First(Q, ELEMENT);
    var e: nat, x: nat := 1, 0x22e023d74d702cd09a58d271f7751728560b02aee57a9011438ececad1bce047;
    e, x := Odd(Q, ELEMENT, e, x, 0xe61864cb7c02d50ff247d4cc84e72248e8db6a676539235e902c330759c0a6b);
    e, x := Even(Q, ELEMENT, e, x, 0x2568f5f9da2f4d172646e5f488305d909dadd6d8233479d554ef6b700b6f5876);
    e, x := Even(Q, ELEMENT, e, x, 0x1dcad998c8e681fb8b12e8aa3785a7c7ebf56fa6b443009aab101895c076aaf2);
    e, x := Even(Q, ELEMENT, e, x, 0x3bba4888956555d7b6c7dba7d28e0ea287038db3523f05a5f131c77a437d7ac);
    e, x := Even(Q, ELEMENT, e, x, 0xcae75a0ed7171aed531b2489b8eda6f3e8fb74414f54ebc9cf5f1515df890b1);
    e, x := Even(Q, ELEMENT, e, x, 0x1b2e120458a60775b872776dbcb18b317eb030544cc66b2c61c9d516e7d653c3);
    e, x := Odd(Q, ELEMENT, e, x, 0x244e8efa9ce97b234d42b8dfbdcaaa6f90876242e760d7c0692f8c97ee05165);
    e, x := Odd(Q, ELEMENT, e, x, 0x14c70afa9999cb31cb8b6ceaebd06b060f3b780d8059ce099c301aa5fa8356b5);
    e, x := Even(Q, ELEMENT, e, x, 0x21a119cc4f6d19c47713a12285193e1af604d3989387eaf0e33ad646449a4c02);
    e, x := Even(Q, ELEMENT, e, x, 0x1bebe314c847aa5e02324cbf2528898a5b63b1e75a313d18ccca424a8bedade8);
    e, x := Even(Q, ELEMENT, e, x, 0x2fccad684f132fe68f876b8c8a04781bba8532bf42c454103eefcb641a6460fb);
    e, x := Odd(Q, ELEMENT, e, x, 0x1b33eb9d459d3a5888d6aafe6dbb30b5c28dd84699f2677c500982cdf7648e78);
    e, x := Odd(Q, ELEMENT, e, x, 0x225a547ec85ccf8ca5b65e0e2f2ca9b3fd5ef530c067d2646ed88e2f4f3a9d99);
    e, x := Odd(Q, ELEMENT, e, x, 0x2cb9a311c65f1fa7aab9c98066f34708e32a3c76bb5c351b085c77613c381c38);
    e, x := Odd(Q, ELEMENT, e, x, 0x2a92f7198d54ddb917ba963ca1bba956c7e2e03ee099104efac4a4f39a367784);
    e, x := Odd(Q, ELEMENT, e, x, 0x4eb5ede80767e2ba5161881a89c0d9682f3cc616f8b686b0c4c73decbb741db);
    e, x := Odd(Q, ELEMENT, e, x, 0x1b38228e9f1a65bf66bd7762425c96030d254bac675228aee3439c6f239a2fb1);
    e, x := Even(Q, ELEMENT, e, x, 0x2f00fb287ab7f3761e2604d8e72ab7f4331a7012bf016f087735d3f44bb8e782);
  }

  lemma PowerQ()
    ensures Leaves(Q, ELEMENT, 405928799, 0xd0a21d6bb3d8d24412f256d505c7f2f5a64771d1ee8962afbe94d52b3c756e5)
  {
    hide Leaves;
    PowerQA();
    var e: nat, x: nat := 396414, 0x2f00fb287ab7f3761e2604d8e72ab7f4331a7012bf016f087735d3f44bb8e782;
    e, x := Odd(Q, ELEMENT, e, x, 0x2dc4279850e9eb8e0dd8b4ccb7ee441746b9e54f231b6cda5abe85eda608f0df);
    e, x := Odd(Q, ELEMENT, e, x, 0x2919eebc572d1e91646fbeff446623ac652ea09d6213110bbfdf5a1d1f87186d);
    e, x := Even(Q, ELEMENT, e, x, 0x1814a6604cd143622853fb31ca514d14685b2bc64e4c4d89f5a3b0bd952aebbf);
    e, x := Odd(Q, ELEMENT, e, x, 0x2c5f9b00c67340df8315cb16b894ba3976aebfccfba3e211c2fae76a8c5ad370);
    e, x := Even(Q, ELEMENT, e, x, 0x294d17d8943ead33f27cd1b128e9e6e58c2954f383df9a354d7ee604786e47a3);
    e, x := Odd(Q, ELEMENT, e, x, 0x1e865862712b8b90b8e4ae635e8e2c9cfbb4d74aeddf7324ed7683ccfb6b82b7);
    e, x := Odd(Q, ELEMENT, e, x, 0xc0c4ad9c8f5df98319b8e846d84224862f922d739f9b2b05ffd44fb28f571e1);
    e, x := Odd(Q, ELEMENT, e, x, 0x1678c706e2819c35971203f2cff2ac5576d0c0c6b0c4bd27e8643de28b885b47);
    e, x := Odd(Q, ELEMENT, e, x, 0xa54cb96daef01277ce1acaca49b19340354bc6ff5cba85c18b523f9314d9c8d);
    e, x := Odd(Q, ELEMENT, e, x, 0xd0a21d6bb3d8d24412f256d505c7f2f5a64771d1ee8962afbe94d52b3c756e5);
  }

  const U: nat := 0xd0a21d6bb3d8d24412f256d505c7f2f5a64771d1ee8962afbe94d52b3c756e5

  lemma PowerQR()
    ensures Leaves(Q, U, 983, 0x299662f9e8574586530237c7b2e285cc00b75b8c63b1d725b7ffc6d604e94fc8)
  {
    hide Leaves;
    First(Q, U);
    var e: nat, x: nat := 1, 0xd0a21d6bb3d8d24412f256d505c7f2f5a64771d1ee8962afbe94d52b3c756e5;
    e, x := Odd(Q, U, e, x, 0xa56742690c1d693bf61280ef2ce681253ab168c44edadb9cab3d9f1f5878b5b);
    e, x := Odd(Q, U, e, x, 0xb17c3e3d9f74a2146b9a93a54df5896fad1e1d758630fc3e2a589b8232f2393);
    e, x := Odd(Q, U, e, x, 0xc1cbb7241f8e3b06c779fc2780fd2c74feb42d25b8516edb580c35775a212e6);
    e, x := Even(Q, U, e, x, 0xec0506911f5b18265166c3b92cd520043bf413ecd6b9240b1e3e0c0211d67ab);
    e, x := Odd(Q, U, e, x, 0x2c9a52836e48e730d1c94d42fa2813cd7c0aa8af19210018166d356b6bf18f0);
    e, x := Even(Q, U, e, x, 0x29af6c42bf2becdb73afb10ce6beece1583ef1cfdf6156b0332786ab55c71d39);
    e, x := Odd(Q, U, e, x, 0x2a9aedd2219fbe3e2885c8de104502d733f7d4bb6248312d206dcecb8075a80c);
    e, x := Odd(Q, U, e, x, 0x2e6ab95028921500318dd9213f8d8a5ce020fe59df4903853a24f4062a8169e7);
    e, x := Odd(Q, U, e, x, 0x299662f9e8574586530237c7b2e285cc00b75b8c63b1d725b7ffc6d604e94fc8);
  }

  // The part of q - 1 that is certified.
  const CERTIFIED: nat := 5513914453576473512048752822493024708777

  lemma Returning()
    ensures Returns(Q, ELEMENT, CERTIFIED)
  {
    hide Leaves;
    PowerP();
    PowerPQ();
    PowerPQR();
    Compose(Q, ELEMENT, 13818364434197438864469338081, X, 405928799, Z);
    Compose(Q, ELEMENT, 5609272078918080887129962179545294719, Z, 983, 1);
    LeavesOne(Q, ELEMENT, CERTIFIED);
  }

  lemma NotSoonerP()
    ensures NotSooner(Q, ELEMENT, CERTIFIED, 13818364434197438864469338081)
  {
    hide Leaves, NotSooner;
    PowerQ();
    PowerQR();
    Compose(Q, ELEMENT, 405928799, U, 983, 0x299662f9e8574586530237c7b2e285cc00b75b8c63b1d725b7ffc6d604e94fc8);
    NotSoonerBy(Q, ELEMENT, CERTIFIED, 13818364434197438864469338081, 399028009417,
                0x299662f9e8574586530237c7b2e285cc00b75b8c63b1d725b7ffc6d604e94fc8,
                0x29a1d6cdff4615644953694b0908408f070056350f6009ad0924c654e07a589d,
                0x23c73d8383bd31e72d4170f080ad61267d480fc8799356051d36e0c3fb58550a);
  }

  lemma NotSoonerQ()
    ensures NotSooner(Q, ELEMENT, CERTIFIED, 405928799)
  {
    hide Leaves, NotSooner;
    PowerP();
    PowerPR();
    Compose(Q, ELEMENT, 13818364434197438864469338081, X, 983, 0x1f71dad7e4fb79ba1f708024c70892fa92776221871259f75b5e48a34129fe36);
    NotSoonerBy(Q, ELEMENT, CERTIFIED, 405928799, 13583452238816082403773359333623,
                0x1f71dad7e4fb79ba1f708024c70892fa92776221871259f75b5e48a34129fe36,
                0x1a3cedaebd80ff06719ef42c967c3d9b9d4141d2c218a2c397c74553d289a00f,
                0x110c9fbbb2bbaad0fe1d37ebb6ab6870cd57d5e2c5a436ac9b8fbbc434b4051a);
  }

  lemma NotSoonerR()
    ensures NotSooner(Q, ELEMENT, CERTIFIED, 983)
  {
    hide Leaves, NotSooner;
    PowerP();
    PowerPQ();
    Compose(Q, ELEMENT, 13818364434197438864469338081, X, 405928799, Z);
    NotSoonerBy(Q, ELEMENT, CERTIFIED, 983, 5609272078918080887129962179545294719,
                0xfc1abc3a37f4ea9a023d3913ca1228ecfb449e0ec043785e19b9f1a7ce6a5d8,
                0x4d385d406ab9e4054cf9078b38f4ac93bd4e4622e354ce94a1d975ed5034fc5,
                0x1924a40137e21627884db73daa8911f925e56d48c89a30e8529881e3f2ff772);
  }

  lemma CertifiedProduct() returns (s: seq<nat>)
    ensures s == [13818364434197438864469338081, 405928799, 983] && Prod(s) == CERTIFIED
  {
    s := [13818364434197438864469338081, 405928799, 983];
    assert s[1..] == [405928799, 983];
    ProdTwo(405928799, 983);
  }

  /** Between them three primes certify more than the square root of q. */
  lemma ModulusIsPrime()
    ensures Prime(Q)
  {
    hide NotSooner, Returns, Prime, Prod;
    var s := CertifiedProduct();
    PrimeOf94Bits();
    PrimeOf29Bits();
    SmallPrime(983);
    Returning();
    NotSoonerP();
    NotSoonerQ();
    NotSoonerR();
    CertifiedPrime(Q, ELEMENT, s);
  }
}
