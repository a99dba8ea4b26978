/**
 * The Konami easter egg: a keydown handler keeps the last ten keys in a
 * buffer and fires when the buffer, joined with '', spells the joined
 * Konami sequence.
 */
module Konami {

  /** How many keys the buffer keeps (`slice(-10)`). */
  const WINDOW: nat := 10

  /** The ten keys of the easter egg, in the order they must be typed. */
  const SEQUENCE: seq<string> :=
    ["ArrowUp", "ArrowUp", "ArrowDown", "ArrowDown", "ArrowLeft",
     "ArrowRight", "ArrowLeft", "ArrowRight", "b", "a"]

  /** `keys.join('')`: the keys concatenated in order, with no separator. */
  function Join(keys: seq<string>): (joined: string)
  {
    if keys == [] then "" else keys[0] + Join(keys[1..])
  }

  /** `s.slice(-n)` for n > 0, and the empty sequence for n == 0:
      the last min(|s|, n) elements of s. */
  function Last<T>(s: seq<T>, n: nat): (r: seq<T>)
    ensures |r| == if |s| <= n then |s| else n
    ensures r == s[|s| - |r|..]
  {
    if |s| <= n then s else s[|s| - n..]
  }

  /** Whether the joined buffer matches the joined sequence (the test of the handler). */
  predicate Matches(buffer: seq<string>)
  {
    Join(buffer) == Join(SEQUENCE)
  }

  /** The buffer after the keys `keys` were pressed, one keydown at a time,
      starting from the empty buffer: push, then keep the last ten. */
  function Buffer(keys: seq<string>): (buffer: seq<string>)
  {
    if keys == [] then []
    else Last(Buffer(keys[..|keys| - 1]) + [keys[|keys| - 1]], WINDOW)
  }

  /** Whether the keydown that ends `keys` fires the easter egg. */
  predicate Fires(keys: seq<string>)
  {
    Matches(Buffer(keys))
  }

  /** Trimming before a push does not change what the next trim keeps. */
  lemma LastPush<T>(s: seq<T>, x: T, n: nat)
    ensures Last(Last(s, n) + [x], n) == Last(s + [x], n)
  {
  }

  /** Joining distributes over concatenation. */
  lemma {:induction false} JoinAppend(a: seq<string>, b: seq<string>)
    ensures Join(a + b) == Join(a) + Join(b)
  {
    if a == [] {
      assert a + b == b;
    } else {
      assert (a + b)[1..] == a[1..] + b;
      JoinAppend(a[1..], b);
    }
  }

  /** After every keydown the buffer holds exactly the last min(10, n) keys
      pressed, oldest first. */
  lemma {:induction false} BufferIsLastKeys(keys: seq<string>)
    ensures Buffer(keys) == Last(keys, WINDOW)
    ensures |Buffer(keys)| <= WINDOW
  {
    if keys != [] {
      var init := keys[..|keys| - 1];
      BufferIsLastKeys(init);
      LastPush(init, keys[|keys| - 1], WINDOW);
      assert init + [keys[|keys| - 1]] == keys;
    }
  }

  /** The easter egg fires exactly when the last ten keys (or all of them,
      if fewer were pressed), joined, spell the joined sequence. */
  lemma FiresIff(keys: seq<string>)
    ensures Fires(keys) <==> Join(Last(keys, WINDOW)) == Join(SEQUENCE)
  {
    BufferIsLastKeys(keys);
  }

  /** Typing the ten keys fires the easter egg, whatever was typed before:
      the buffer then equals the sequence, which is sufficient for a match. */
  lemma FiresAfterSequence(history: seq<string>)
    ensures Buffer(history + SEQUENCE) == SEQUENCE
    ensures Fires(history + SEQUENCE)
  {
    BufferIsLastKeys(history + SEQUENCE);
    assert (history + SEQUENCE)[|history|..] == SEQUENCE;
  }

  /** A match does not clear the buffer: the key after a completed sequence
      is appended to the nine most recent keys of that sequence. */
  lemma NotClearedAfterMatch(history: seq<string>, key: string)
    ensures Buffer(history + SEQUENCE + [key]) == SEQUENCE[1..] + [key]
  {
    var keys := history + SEQUENCE + [key];
    assert keys[..|keys| - 1] == history + SEQUENCE;
    FiresAfterSequence(history);
  }

  /** Grouping ten keys into four runs of adjacent keys, each run named by
      its concatenation, does not change the joined text. */
  lemma {:induction false} JoinGrouped(s: seq<string>)
    requires |s| == 10
    ensures Join([s[0] + s[1], s[2] + s[3], s[4] + s[5] + s[6] + s[7], s[8] + s[9]]) == Join(s)
  {
    var keys := [s[0] + s[1], s[2] + s[3], s[4] + s[5] + s[6] + s[7], s[8] + s[9]];
    assert s == s[..2] + s[2..4] + s[4..8] + s[8..];
    JoinAppend(s[..2] + s[2..4] + s[4..8], s[8..]);
    JoinAppend(s[..2] + s[2..4], s[4..8]);
    JoinAppend(s[..2], s[2..4]);
    assert Join(s[..2]) == keys[0] by {
      assert Join(s[..2]) == s[0] + Join(s[1..2]);
    }
    assert Join(s[2..4]) == keys[1] by {
      assert Join(s[2..4]) == s[2] + Join(s[3..4]);
    }
    assert Join(s[4..8]) == keys[2] by {
      assert Join(s[7..8]) == s[7];
      assert Join(s[6..8]) == s[6] + Join(s[7..8]);
      assert Join(s[5..8]) == s[5] + Join(s[6..8]);
      assert Join(s[4..8]) == s[4] + Join(s[5..8]);
    }
    assert Join(s[8..]) == keys[3] by {
      assert Join(s[8..]) == s[8] + Join(s[9..]);
    }
    assert Join(keys) == keys[0] + (keys[1] + (keys[2] + keys[3])) by {
      assert Join(keys[3..]) == keys[3];
      assert Join(keys[2..]) == keys[2] + Join(keys[3..]);
      assert Join(keys[1..]) == keys[1] + Join(keys[2..]);
    }
  }

  /** Equality of the buffer with the sequence is not necessary for a match:
      four keys, each named by the concatenation of adjacent names of the
      sequence ("ArrowUpArrowUp", "ArrowDownArrowDown", ...), also fire. */
  lemma MatchWithoutSequence()
    ensures var keys := [SEQUENCE[0] + SEQUENCE[1], SEQUENCE[2] + SEQUENCE[3],
                         SEQUENCE[4] + SEQUENCE[5] + SEQUENCE[6] + SEQUENCE[7],
                         SEQUENCE[8] + SEQUENCE[9]];
            Fires(keys) && Buffer(keys) != SEQUENCE
  {
    var keys := [SEQUENCE[0] + SEQUENCE[1], SEQUENCE[2] + SEQUENCE[3],
                 SEQUENCE[4] + SEQUENCE[5] + SEQUENCE[6] + SEQUENCE[7],
                 SEQUENCE[8] + SEQUENCE[9]];
    BufferIsLastKeys(keys);
    JoinGrouped(SEQUENCE);
  }

  /** The six distinct key names used by the sequence. */
  predicate IsSequenceKey(k: string)
  {
    k == "ArrowUp" || k == "ArrowDown" || k == "ArrowLeft" || k == "ArrowRight" || k == "b" || k == "a"
  }

  /** No key name of the sequence is a proper prefix of another one. */
  lemma SequenceKeysPrefixFree(k: string, l: string)
    requires IsSequenceKey(k) && IsSequenceKey(l)
    requires k <= l
    ensures k == l
  {
    assert k == l[..|k|];
    if k == "a" || k == "b" {
      assert l[0] == k[0];
    } else {
      assert l[5] == k[5];
    }
  }

  /** When every key pressed is one of the sequence's own six keys, joining
      loses nothing: two such buffers join equal only if they are equal. */
  lemma {:induction false} JoinInjective(xs: seq<string>, ys: seq<string>)
    requires forall i :: 0 <= i < |xs| ==> IsSequenceKey(xs[i])
    requires forall i :: 0 <= i < |ys| ==> IsSequenceKey(ys[i])
    requires Join(xs) == Join(ys)
    ensures xs == ys
  {
    if xs == [] || ys == [] {
    } else {
      var x, y := xs[0], ys[0];
      assert Join(xs) == x + Join(xs[1..]);
      assert Join(ys) == y + Join(ys[1..]);
      if |x| <= |y| {
        assert x == Join(ys)[..|x|] == y[..|x|];
        SequenceKeysPrefixFree(x, y);
      } else {
        assert y == Join(xs)[..|y|] == x[..|y|];
        SequenceKeysPrefixFree(y, x);
      }
      assert Join(xs[1..]) == Join(ys[1..]);
      JoinInjective(xs[1..], ys[1..]);
    }
  }

  /** For buffers of the sequence's own keys, a match means the buffer is the sequence. */
  lemma MatchIsSequenceForSequenceKeys(buffer: seq<string>)
    requires forall i :: 0 <= i < |buffer| ==> IsSequenceKey(buffer[i])
    ensures Matches(buffer) <==> buffer == SEQUENCE
  {
    if Matches(buffer) {
      JoinInjective(buffer, SEQUENCE);
    }
  }

  /**
   * The keydown listener's state: the `konamiCode` array. The ghost field
   * `pressed` records every key pressed so far.
   */
  class KeyBuffer {
    var konamiCode: seq<string>
    ghost var pressed: seq<string>

    ghost predicate Valid()
      reads this
    {
      konamiCode == Buffer(pressed)
    }

    constructor ()
      ensures Valid() && pressed == [] && konamiCode == []
    {
      konamiCode := [];
      pressed := [];
    }

    /** One keydown: push the key, keep the last ten, and report whether
        the joined buffer spells the joined sequence. The buffer is kept. */
    method KeyDown(key: string) returns (activated: bool)
      requires Valid()
      modifies this
      ensures Valid() && pressed == old(pressed) + [key]
      ensures konamiCode == Last(old(konamiCode) + [key], WINDOW)
      ensures konamiCode == Last(pressed, WINDOW)
      ensures activated <==> Join(konamiCode) == Join(SEQUENCE)
    {
      konamiCode := konamiCode + [key];
      konamiCode := Last(konamiCode, WINDOW);
      pressed := pressed + [key];
      assert pressed[..|pressed| - 1] == old(pressed);
      BufferIsLastKeys(pressed);
      activated := Join(konamiCode) == Join(SEQUENCE);
    }
  }
}
