/** The C library's block operations on `char` buffers, as the line editor uses them. */
module Memory {

  /** `memmove` (and `memcpy`): every byte is read before any is written, so the blocks may overlap. */
  method Move(dst: array<char>, d: nat, src: array<char>, s: nat, n: nat)
    requires d + n <= dst.Length && s + n <= src.Length
    modifies dst
    ensures forall i :: 0 <= i < dst.Length ==> dst[i] == old(if d <= i < d + n then src[s + i - d] else dst[i])
  {
    forall i | 0 <= i < n {
      dst[d + i] := src[s + i];
    }
  }

  /** `memset` to zero over the first `n` bytes. */
  method Clear(dst: array<char>, n: nat)
    requires n <= dst.Length
    modifies dst
    ensures forall i :: 0 <= i < dst.Length ==> dst[i] == old(if i < n then '\0' else dst[i])
  {
    forall i | 0 <= i < n {
      dst[i] := '\0';
    }
  }

  /** `strcpy` of a string that fits: the characters and a terminating zero. */
  method StrCpy(dst: array<char>, d: nat, s: string)
    requires d + |s| < dst.Length
    modifies dst
    ensures dst[d..d + |s|] == s && dst[d + |s|] == '\0'
    ensures forall i :: 0 <= i < dst.Length && (i < d || d + |s| < i) ==> dst[i] == old(dst[i])
  {
    forall i | 0 <= i < |s| {
      dst[d + i] := s[i];
    }
    dst[d + |s|] := '\0';
  }
}
