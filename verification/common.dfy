/**
 * Shared vocabulary of the model: optional values, results carrying the
 * error the server code throws, bytes, and a few small sequence helpers.
 */
module Common {

  /** `null`/`undefined` in the server code. */
  datatype Option<+T> = None | Some(value: T) {
    function GetOr(default: T): T {
      match this
      case Some(v) => v
      case None => default
    }
  }

  /** The errors the server code throws, one constructor per distinct message. */
  datatype Error =
    | NotInGame          // Game.getPlayer: "Player ... is not in game ..."
    | AlreadyReady       // submitPlayerGuess: "... is already ready for round end."
    | RoundMismatch      // submitPlayerGuess: "Provided round index does not match ..."
    | NoSuchRound        // submitPlayerGuess: "Round ... does not exist ..."
    | AlreadyGuessed     // submitPlayerGuess: "... has already submitted a guess ..."
    | NoValidRounds      // generateRounds: "No valid rounds could be generated"
    | PlayerNotFound     // GameManager.getPlayer
    | GameNotFound       // GameManager.getGame
    | NoActiveGame       // GameManager.getPlayerActiveGame
    | DuplicatePlayer    // legacy Game.addPlayer
    | MissingItems(messages: seq<string>)  // legacy addPlayerToGame
    | EmptyReduce        // Array.prototype.reduce without a seed on []
    | NullTrack          // legacy filter reading `is_local` of a null track

  datatype Result<+T> = Ok(value: T) | Err(error: Error)

  newtype byte = x: int | 0 <= x < 256

  function Min(a: int, b: int): int { if a <= b then a else b }

  function Max(a: int, b: int): int { if a <= b then b else a }

  /** `n` clamped into [lo, hi]; lodash's sampleSize clamps its count this way. */
  function Clamp(n: int, lo: int, hi: int): (r: int)
    requires lo <= hi
    ensures lo <= r <= hi
    ensures lo <= n <= hi ==> r == n
  {
    if n < lo then lo else if n > hi then hi else n
  }

  /** `Array.from(xs, () => null)`: one empty slot per element. */
  function Nulls<T>(n: nat): (r: seq<Option<T>>)
    ensures |r| == n
    ensures forall i :: 0 <= i < n ==> r[i] == None
  {
    seq(n, _ => None)
  }

  /** No element occurs twice. */
  predicate Distinct<T(==)>(s: seq<T>) {
    forall i, j :: 0 <= i < j < |s| ==> s[i] != s[j]
  }

  /** A duplicate-free sequence holds each of its elements once. */
  lemma {:induction false} DistinctOnce<T>(s: seq<T>, x: T)
    requires Distinct(s)
    ensures multiset(s)[x] <= 1
    decreases |s|
  {
    if |s| > 0 {
      assert s == [s[0]] + s[1..];
      DistinctOnce(s[1..], x);
      if s[0] == x {
        assert x !in s[1..] by {
          forall k | 0 <= k < |s[1..]| ensures s[1..][k] != x {
            assert s[1..][k] == s[k + 1];
          }
        }
      }
    }
  }

  /** A prefix holds each element at most as often as the whole sequence. */
  lemma PrefixSub<T>(s: seq<T>, k: nat)
    requires k <= |s|
    ensures multiset(s[..k]) <= multiset(s)
  {
    assert s == s[..k] + s[k..];
  }

  /** Taking each element at most as often as a duplicate-free sequence holds it gives no duplicates. */
  lemma DistinctSub<T>(a: seq<T>, b: seq<T>)
    requires multiset(a) <= multiset(b) && Distinct(b)
    ensures Distinct(a)
  {
    forall i, j | 0 <= i < j < |a| ensures a[i] != a[j] {
      if a[i] == a[j] {
        assert a == a[..j] + [a[j]] + a[j + 1..];
        assert a[i] in a[..j];
        assert multiset(a)[a[i]] >= 2;
        DistinctOnce(b, a[i]);
        assert false;
      }
    }
  }

  /**
   * The first `n` characters of `s`, the model's `String.prototype.substring(0, n)`.
   * JavaScript counts UTF-16 code units rather than characters; the two
   * agree while the characters kept lie in the Basic Multilingual Plane
   * (`PrefixAgreesOnBmp`).
   */
  function Prefix(s: string, n: nat): (r: string)
    ensures |r| == Min(|s|, n)
    ensures r <= s
  {
    if |s| <= n then s else s[..n]
  }

  /** A UTF-16 code unit. */
  type CodeUnit = x: int | 0 <= x < 0x1_0000

  /** The code units of one character: itself, or a surrogate pair above the Basic Multilingual Plane. */
  function Utf16Char(c: char): (u: seq<CodeUnit>)
    ensures |u| == if c as int < 0x1_0000 then 1 else 2
  {
    if c as int < 0x1_0000 then [c as int]
    else
      var v := c as int - 0x1_0000;
      [0xD800 + v / 0x400, 0xDC00 + v % 0x400]
  }

  /** A string as JavaScript stores it: its UTF-16 code units. */
  function Utf16(s: string): (u: seq<CodeUnit>)
    ensures |u| >= |s|
  {
    if s == [] then [] else Utf16Char(s[0]) + Utf16(s[1..])
  }

  /** Every character of `s` lies in the Basic Multilingual Plane. */
  predicate Bmp(s: string) {
    forall i :: 0 <= i < |s| ==> s[i] as int < 0x1_0000
  }

  lemma {:induction false} Utf16Append(a: string, b: string)
    ensures Utf16(a + b) == Utf16(a) + Utf16(b)
    decreases |a|
  {
    if a != [] {
      assert (a + b)[1..] == a[1..] + b;
      Utf16Append(a[1..], b);
    } else {
      assert a + b == b;
    }
  }

  lemma {:induction false} Utf16BmpLength(s: string)
    requires Bmp(s)
    ensures |Utf16(s)| == |s|
    decreases |s|
  {
    if s != [] {
      Utf16BmpLength(s[1..]);
    }
  }

  /**
   * Cutting by characters and cutting by UTF-16 code units agree when every
   * character kept lies in the Basic Multilingual Plane.
   */
  lemma PrefixAgreesOnBmp(s: string, n: nat)
    requires Bmp(s[..Min(|s|, n)])
    ensures Utf16(Prefix(s, n)) == Utf16(s)[..Min(|Utf16(s)|, n)]
  {
    var k := Min(|s|, n);
    assert s == s[..k] + s[k..];
    Utf16Append(s[..k], s[k..]);
    Utf16BmpLength(s[..k]);
  }

  /**
   * Beyond the Basic Multilingual Plane the two cuts differ: a one-unit cut
   * of a single astral character keeps the character in the model, while
   * JavaScript keeps half of its surrogate pair.
   */
  lemma PrefixDiffersAboveBmp(c: char)
    requires c as int >= 0x1_0000
    ensures Utf16(Prefix([c], 1)) != Utf16([c])[..1]
  {
    assert [c][1..] == [];
  }
}
