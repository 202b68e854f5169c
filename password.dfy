/**
 * The password obfuscation of util.c: the password buffer (options.password),
 * the options.encrypted flag, a pad of pseudo-random bytes created on the first
 * encryption and kept until clearPassword, and passwordLen, the number of bytes
 * the pad covers. Encryption and decryption XOR the buffer with the pad in place.
 * The bytes random() would produce are an arbitrary stream given by the caller.
 */
module Password {
  import opened Alloc

  /**
   * The bytes of a C string buffer: non-zero characters and one terminating zero.
   * Path.CLen and Path.NoNul state the same idea over the char buffers of basename and dirname.
   */
  ghost predicate IsCString(s: seq<bv8>) {
    |s| >= 1 && s[|s| - 1] == 0 && forall i :: 0 <= i < |s| - 1 ==> s[i] != 0
  }

  /** strlen over bytes: the index of the first zero byte (the whole length when there is none); Path.CLen is the same over chars. */
  function Strlen(s: seq<bv8>): (n: nat)
    ensures n <= |s| && (n < |s| ==> s[n] == 0)
    ensures forall i :: 0 <= i < n ==> s[i] != 0
  {
    if s == [] || s[0] == 0 then 0 else 1 + Strlen(s[1..])
  }

  lemma StrlenOfCString(s: seq<bv8>)
    requires IsCString(s)
    ensures Strlen(s) == |s| - 1
  {
  }

  /** The buffer a XORed byte by byte with the pad p. */
  function Xor(a: seq<bv8>, p: seq<bv8>): (r: seq<bv8>)
    requires |a| <= |p|
    ensures |r| == |a|
    ensures forall i :: 0 <= i < |a| ==> r[i] == a[i] ^ p[i]
  {
    if a == [] then [] else [a[0] ^ p[0]] + Xor(a[1..], p[1..])
  }

  /** XOR with the same pad is its own inverse: decryption after encryption gives every byte back. */
  lemma XorInvolutive(a: seq<bv8>, p: seq<bv8>)
    requires |a| <= |p|
    ensures Xor(Xor(a, p), p) == a
  {
    var e := Xor(a, p);
    forall i | 0 <= i < |a|
      ensures Xor(e, p)[i] == a[i]
    {
      assert e[i] == a[i] ^ p[i];
    }
  }

  /** The first n values of the pseudo-random stream. */
  function RandomBytes(random: nat -> bv8, n: nat): (r: seq<bv8>)
    ensures |r| == n && forall i :: 0 <= i < n ==> r[i] == random(i)
  {
    seq(n, (i: int) requires 0 <= i < n => random(i))
  }

  /** The pad-filling loop of encryptPassword: n fresh bytes from the stream. */
  method NewPad(random: nat -> bv8, n: nat) returns (p: array<bv8>)
    ensures fresh(p) && p[..] == RandomBytes(random, n)
  {
    p := new bv8[n];
    for i := 0 to n
      invariant forall j :: 0 <= j < i ==> p[j] == random(j)
    {
      p[i] := random(i);
    }
  }

  /** The loop encryptPassword and decryptPassword share: the first n bytes of buf XORed in place with the pad. */
  method XorWithPad(buf: array<bv8>, pad: array<bv8>, n: nat)
    requires n == buf.Length <= pad.Length && buf != pad
    modifies buf
    ensures buf[..] == Xor(old(buf[..]), pad[..])
  {
    for i := 0 to n
      invariant forall j :: 0 <= j < i ==> buf[j] == old(buf[j]) ^ pad[j]
      invariant forall j :: i <= j < n ==> buf[j] == old(buf[j])
    {
      buf[i] := buf[i] ^ pad[i];
    }
  }

  class PasswordStore {
    /** options.password, terminator included; null when no password is set. */
    var password: array?<bv8>
    /** options.encrypted */
    var encrypted: bool
    /** passwordPad; null until the first encryption. */
    var pad: array?<bv8>
    /** passwordLen: how many bytes of the buffer the pad covers. */
    var passwordLen: nat
    /** needSeed: whether the pseudo-random generator still has to be seeded. */
    var needSeed: bool
    /** The plaintext the buffer stands for, terminator included. */
    ghost var Secret: seq<bv8>

    ghost predicate Valid()
      reads this, password, pad
    {
      (password == null ==> pad == null && passwordLen == 0) &&
      (password != null ==>
        IsCString(Secret) && password.Length == |Secret| &&
        (pad == null ==> passwordLen == 0 && !encrypted) &&
        (pad != null ==> pad != password && pad.Length == passwordLen == password.Length) &&
        password[..] == if encrypted then Xor(Secret, pad[..]) else Secret)
    }

    /** The state the option loader leaves: a plaintext password (or none), no pad, not encrypted. */
    constructor (initial: Option<seq<bv8>>)
      requires initial.Some? ==> forall i :: 0 <= i < |initial.value| ==> initial.value[i] != 0
      ensures Valid() && !encrypted && pad == null && passwordLen == 0 && needSeed
      ensures initial.None? ==> password == null
      ensures initial.Some? ==> password != null && fresh(password) && Secret == initial.value + [0]
    {
      encrypted := false;
      pad := null;
      passwordLen := 0;
      needSeed := true;
      match initial
      case None =>
        password := null;
      case Some(s) =>
        var buf := new bv8[|s| + 1](i requires 0 <= i <= |s| => if i < |s| then s[i] else 0);
        password := buf;
        Secret := s + [0];
        assert buf[..] == s + [0];
    }

    /** seedPasswordRandom: seeds once; only the flag is modelled. */
    method SeedPasswordRandom()
      modifies this`needSeed
      ensures !needSeed
    {
      if needSeed {
        needSeed := false;
      }
    }

    /**
     * encryptPassword: nothing happens when already encrypted or without a password.
     * Otherwise the pad is created if absent (strlen + 1 bytes, terminator included)
     * and the buffer is XORed with it.
     */
    method EncryptPassword(random: nat -> bv8)
      requires Valid()
      modifies this, password
      ensures Valid() && Secret == old(Secret) && password == old(password)
      ensures old(encrypted) || old(password) == null ==>
                unchanged(this) && (password != null ==> unchanged(password))
      ensures !old(encrypted) && old(password) != null ==>
                encrypted && !needSeed && pad != null &&
                password[..] == Xor(old(password[..]), pad[..])
      ensures !old(encrypted) && old(password) != null && old(pad) != null ==>
                pad == old(pad) && pad[..] == old(pad[..]) && passwordLen == old(passwordLen)
      ensures !old(encrypted) && old(password) != null && old(pad) == null ==>
                fresh(pad) && passwordLen == password.Length && pad[..] == RandomBytes(random, passwordLen)
    {
      if encrypted || password == null {
        return;
      }
      SeedPasswordRandom();
      if pad == null {
        StrlenOfCString(password[..]);
        passwordLen := Strlen(password[..]) + 1;
        pad := NewPad(random, passwordLen);
      }
      XorWithPad(password, pad, passwordLen);
      encrypted := true;
    }

    /**
     * decryptPassword: nothing happens when not encrypted, without a password or
     * without a pad. Otherwise the buffer is XORed with the pad again.
     */
    method DecryptPassword()
      requires Valid()
      modifies this, password
      ensures Valid() && Secret == old(Secret) && password == old(password)
      ensures pad == old(pad) && passwordLen == old(passwordLen) && needSeed == old(needSeed)
      ensures !old(encrypted) || old(password) == null || old(pad) == null ==>
                unchanged(this) && (password != null ==> unchanged(password))
      ensures old(encrypted) && old(password) != null && old(pad) != null ==>
                !encrypted && password[..] == Xor(old(password[..]), pad[..]) && password[..] == Secret
    {
      if !encrypted || password == null || pad == null {
        return;
      }
      XorWithPad(password, pad, passwordLen);
      XorInvolutive(Secret, pad[..]);
      encrypted := false;
    }

    /**
     * clearPassword: overwrites the passwordLen bytes of buffer and pad with
     * pseudo-random bytes (alternately, buffer first), then drops both and
     * resets passwordLen. options.encrypted is left as it was.
     */
    method ClearPassword(random: nat -> bv8)
      requires Valid()
      modifies this, password, pad
      ensures Valid() && password == null && pad == null && passwordLen == 0 && !needSeed
      ensures encrypted == old(encrypted)
      ensures old(pad) != null ==>
                (forall i :: 0 <= i < old(passwordLen) ==> old(password)[i] == random(2 * i)) &&
                (forall i :: 0 <= i < old(passwordLen) ==> old(pad)[i] == random(2 * i + 1))
      ensures old(password) != null && old(pad) == null ==> unchanged(old(password))
    {
      SeedPasswordRandom();
      for i := 0 to passwordLen
        modifies password, pad
        invariant pad == null && password != null ==> unchanged(password)
        invariant forall j :: 0 <= j < i ==> password[j] == random(2 * j) && pad[j] == random(2 * j + 1)
      {
        password[i] := random(2 * i);
        pad[i] := random(2 * i + 1);
      }
      password := null;
      pad := null;
      passwordLen := 0;
    }
  }

  /** A full toggle: after encryptPassword and decryptPassword every byte of the password is back. */
  method EncryptThenDecrypt(store: PasswordStore, random: nat -> bv8)
    requires store.Valid() && store.password != null && !store.encrypted
    modifies store, store.password
    ensures store.Valid() && store.password == old(store.password) && store.password != null
    ensures !store.encrypted && store.pad != null
    ensures store.password[..] == old(store.password[..])
  {
    store.EncryptPassword(random);
    store.DecryptPassword();
  }
}
