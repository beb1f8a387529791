/**
Textbook Poseidon is a bijection of its states as soon as its dense matrix and its S-box have
inverses; so the fast permutation with tables derived from the cipher is one too, with nothing
asked of the derived matrices.
 */
module Decipherment {
  import opened Rings
  import opened Matrices
  import opened Poseidon
  import opened Textbook
  import opened Derivation
  import opened Invertibility

  function UndoRound<T>(R: Ring<T>, C: Cipher<T>, Minv: seq<T>, root: T -> T, z: Vec<T>, r: nat): (x: Vec<T>)
    requires C.Valid() && |Minv| == C.t * C.t && |z| == C.t && r < C.rounds
    ensures |x| == C.t
  {
    var s := Apply(R, C.t, Minv, z);
    VSub(R, if C.half <= r < C.half + C.rp then s[0 := root(s[0])] else RootAll(root, s), C.c[r])
  }

  /** Undoes the first n rounds, the last of them first. */
  function UndoRounds<T>(R: Ring<T>, C: Cipher<T>, Minv: seq<T>, root: T -> T, y: Vec<T>, n: nat): (x: Vec<T>)
    requires C.Valid() && |Minv| == C.t * C.t && |y| == C.t && n <= C.rounds
    ensures |x| == C.t
    decreases n
  {
    if n == 0 then y else UndoRounds(R, C, Minv, root, UndoRound(R, C, Minv, root, y, n - 1), n - 1)
  }

  function Decrypt<T>(R: Ring<T>, C: Cipher<T>, Minv: seq<T>, root: T -> T, y: Vec<T>): (x: Vec<T>)
    requires C.Valid() && |Minv| == C.t * C.t && |y| == C.t
    ensures |x| == C.t
  {
    UndoRounds(R, C, Minv, root, y, C.rounds)
  }

  lemma FirstRootUndoes<T(!new)>(R: Ring<T>, root: T -> T, s: Vec<T>)
    requires UndoesSbox(R, root) && |s| >= 1
    ensures SboxFirst(R, s)[0 := root(SboxFirst(R, s)[0])] == s
    ensures SboxFirst(R, s[0 := root(s[0])]) == s
  {
    hide Pow5;
    assert RootAt(R, root, s[0]);
  }

  lemma RoundUndone<T(!new)>(R: Ring<T>, C: Cipher<T>, Minv: seq<T>, root: T -> T, x: Vec<T>, r: nat)
    requires IsRing(R) && C.Valid() && InverseMatrix(R, C.t, C.mds, Minv) && UndoesSbox(R, root)
    requires |x| == C.t && r < C.rounds
    ensures UndoRound(R, C, Minv, root, Round(R, C, x, r), r) == x
    ensures Round(R, C, UndoRound(R, C, Minv, root, x, r), r) == x
  {
    hide Apply, VAdd, VSub, SboxAll, SboxFirst, RootAll, UndoesSbox;
    var partial := C.half <= r < C.half + C.rp;
    var s := VAdd(R, x, C.c[r]);
    var boxed := if partial then SboxFirst(R, s) else SboxAll(R, s);
    VSubAdd(R, x, C.c[r]);
    RootsUndo(R, root, s);
    FirstRootUndoes(R, root, s);
    assert InverseAt(R, C.t, C.mds, Minv, boxed);
    assert InverseAt(R, C.t, C.mds, Minv, x);
    var u := Apply(R, C.t, Minv, x);
    var v := if partial then u[0 := root(u[0])] else RootAll(root, u);
    RootsUndo(R, root, u);
    FirstRootUndoes(R, root, u);
    VSubAdd(R, v, C.c[r]);
  }

  lemma {:induction false} StateUndone<T(!new)>(R: Ring<T>, C: Cipher<T>, Minv: seq<T>, root: T -> T, x: Vec<T>, n: nat)
    requires IsRing(R) && C.Valid() && InverseMatrix(R, C.t, C.mds, Minv) && UndoesSbox(R, root)
    requires |x| == C.t && n <= C.rounds
    ensures UndoRounds(R, C, Minv, root, State(R, C, x, n), n) == x
  {
    hide Round, UndoRound, UndoesSbox, InverseMatrix, IsRing;
    if n > 0 {
      RoundUndone(R, C, Minv, root, State(R, C, x, n - 1), n - 1);
      StateUndone(R, C, Minv, root, x, n - 1);
    }
  }

  lemma RedoneStep<T>(R: Ring<T>, C: Cipher<T>, Minv: seq<T>, root: T -> T, y: Vec<T>, z: Vec<T>, n: nat)
    requires C.Valid() && |Minv| == C.t * C.t && |y| == C.t && 0 < n <= C.rounds
    requires z == UndoRound(R, C, Minv, root, y, n - 1) && Round(R, C, z, n - 1) == y
    requires State(R, C, UndoRounds(R, C, Minv, root, z, n - 1), n - 1) == z
    ensures State(R, C, UndoRounds(R, C, Minv, root, y, n), n) == y
  {
    hide Round, UndoRound;
  }

  lemma RedoneNone<T>(R: Ring<T>, C: Cipher<T>, Minv: seq<T>, root: T -> T, y: Vec<T>)
    requires C.Valid() && |Minv| == C.t * C.t && |y| == C.t
    ensures State(R, C, UndoRounds(R, C, Minv, root, y, 0), 0) == y
  {
  }

  lemma {:induction false} StateRedone<T(!new)>(R: Ring<T>, C: Cipher<T>, Minv: seq<T>, root: T -> T, y: Vec<T>, n: nat)
    requires IsRing(R) && C.Valid() && InverseMatrix(R, C.t, C.mds, Minv) && UndoesSbox(R, root)
    requires |Minv| == C.t * C.t && |y| == C.t && n <= C.rounds
    ensures State(R, C, UndoRounds(R, C, Minv, root, y, n), n) == y
    decreases n
  {
    hide *;
    if n == 0 {
      RedoneNone(R, C, Minv, root, y);
    } else {
      var z := UndoRound(R, C, Minv, root, y, n - 1);
      RoundUndone(R, C, Minv, root, y, n - 1);
      StateRedone(R, C, Minv, root, z, n - 1);
      RedoneStep(R, C, Minv, root, y, z, n);
    }
  }

  /** Decryption undoes textbook Poseidon, and is undone by it. */
  lemma EncryptBijective<T(!new)>(R: Ring<T>, C: Cipher<T>, Minv: seq<T>, root: T -> T, x: Vec<T>)
    requires IsRing(R) && C.Valid() && InverseMatrix(R, C.t, C.mds, Minv) && UndoesSbox(R, root) && |x| == C.t
    ensures Decrypt(R, C, Minv, root, Encrypt(R, C, x)) == x
    ensures Encrypt(R, C, Decrypt(R, C, Minv, root, x)) == x
  {
    assert |Minv| == C.t * C.t;
    hide State, UndoRounds, UndoesSbox, InverseMatrix;
    StateUndone(R, C, Minv, root, x, C.rounds);
    StateRedone(R, C, Minv, root, x, C.rounds);
  }

  /** So the fast permutation with derived tables is a bijection, whatever its sparse matrices are. */
  lemma DerivedBijective<T(!new)>(R: Ring<T>, C: Cipher<T>, Minv: seq<T>, Q: seq<T>, root: T -> T, x: Vec<T>)
    requires IsRing(R) && Inverses(R, C, Minv, Q) && UndoesSbox(R, root) && |x| == C.t
    ensures Derived(R, C, Minv, Q).Valid() && Derived(R, C, Minv, Q).t == C.t
    ensures Decrypt(R, C, Minv, root, Permuted(R, Derived(R, C, Minv, Q), x)) == x
    ensures Permuted(R, Derived(R, C, Minv, Q), Decrypt(R, C, Minv, root, x)) == x
  {
    assert |Minv| == C.t * C.t;
    hide Derived, Encrypt, Decrypt, Permuted, UndoesSbox, InverseMatrix;
    DerivedIsEncrypt(R, C, Minv, Q, x);
    DerivedIsEncrypt(R, C, Minv, Q, Decrypt(R, C, Minv, root, x));
    EncryptBijective(R, C, Minv, root, x);
  }
}
