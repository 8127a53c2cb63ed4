/** The two searches of Util::Array that keep the list of emitters sorted; num is the length
    of the range that is left. */
module SortedArray {
  const INVALID := -1

  ghost predicate Ascending(s: seq<int>) {
    forall i, j :: 0 <= i < j < |s| ==> s[i] <= s[j]
  }

  method BinarySearchIndex(s: seq<int>, elm: int) returns (index: int)
    requires Ascending(s)
    ensures if elm in s then 0 <= index < |s| && s[index] == elm else index == INVALID
  {
    var num := |s|;
    var lo, hi := 0, num - 1;
    while lo <= hi
      invariant 0 <= lo && hi < |s| && num == hi - lo + 1 >= 0
      invariant forall i :: 0 <= i < |s| && !(lo <= i <= hi) ==> s[i] != elm
      decreases num
    {
      var half := num / 2;
      if half != 0 {
        var mid := lo + if num % 2 == 1 then half else half - 1;
        if elm < s[mid] {
          hi := mid - 1;
          num := if num % 2 == 1 then half else half - 1;
        } else if elm > s[mid] {
          lo := mid + 1;
          num := half;
        } else {
          return mid;
        }
      } else if elm != s[lo] {
        return INVALID;
      } else {
        return lo;
      }
    }
    return INVALID;
  }

  /** Where an element belongs: behind all that are not greater. The branch for an empty
      range and the error at the end of the program's version are not reached. */
  method InsertSorted(s: seq<int>, elm: int) returns (index: nat)
    requires Ascending(s)
    ensures index <= |s| && forall i :: 0 <= i < |s| ==> if i < index then s[i] <= elm else elm < s[i]
  {
    var num := |s|;
    if num == 0 {
      return 0;
    }
    var lo, hi := 0, num - 1;
    while lo <= hi
      invariant 0 <= lo < |s| && hi < |s| && num == hi - lo + 1 >= 0
      invariant forall i :: 0 <= i < lo ==> s[i] < elm
      invariant forall i :: hi < i < |s| ==> elm < s[i]
      decreases num
    {
      var half := num / 2;
      if half != 0 {
        var mid := lo + if num % 2 == 1 then half else half - 1;
        if elm < s[mid] {
          hi := mid - 1;
          num := if num % 2 == 1 then half else half - 1;
        } else if elm > s[mid] {
          lo := mid + 1;
          num := half;
        } else {
          index := EndOfIdenticalRange(s, mid, elm);
          return;
        }
      } else {
        assert num == 1;
        if elm < s[lo] {
          return lo;
        } else if elm > s[lo] {
          return lo + 1;
        } else {
          index := EndOfIdenticalRange(s, lo, elm);
          return;
        }
      }
    }
    assert elm < s[lo];
    return lo;
  }

  /** InsertAtEndOfIdenticalRange. */
  method EndOfIdenticalRange(s: seq<int>, startIndex: nat, elm: int) returns (index: nat)
    requires Ascending(s) && startIndex < |s| && s[startIndex] == elm
    ensures index <= |s| && forall i :: 0 <= i < |s| ==> if i < index then s[i] <= elm else elm < s[i]
  {
    index := startIndex + 1;
    while index < |s| && s[index] == elm
      invariant startIndex < index <= |s| && s[index - 1] == elm
    {
      index := index + 1;
    }
  }
}

/** Audio2Server: the list of emitters, and what one frame does to all of them. */
module Audio2ServerFrame {
  import opened Wrappers
  import opened Audio2Model
  import opened Audio2Order
  import opened Audio2Runs
  import opened Audio2Client
  import opened SortedArray

  /** One frame of the main thread: every emitter in turn, and then the flush. */
  function FrameActions(n: nat): seq<Action> {
    OnFrames(n) + [Flush]
  }

  function OnFrames(n: nat): (actions: seq<Action>)
    ensures |actions| == n
  {
    seq(n, i requires 0 <= i < n => EmitterOnFrame(i))
  }

  function Addresses(emitters: seq<Audio2Emitter>): (addresses: seq<int>)
    ensures |addresses| == |emitters|
    ensures forall i :: 0 <= i < |emitters| ==> addresses[i] == emitters[i].address
  {
    seq(|emitters|, i requires 0 <= i < |emitters| => emitters[i].address)
  }

  /** Emitters in the order of their addresses, each once. */
  ghost predicate Sorted(emitters: seq<Audio2Emitter>) {
    forall i, j :: 0 <= i < j < |emitters| ==> emitters[i].address < emitters[j].address
  }

  class Audio2Server {
    const iface: Audio2Interface
    var audioEmitters: seq<Audio2Emitter>

    constructor (iface: Audio2Interface)
      ensures this.iface == iface && audioEmitters == []
    {
      this.iface, audioEmitters := iface, [];
    }

    /** The registered emitters as a world of their own. */
    ghost function World(closedLog: map<int, seq<Message>>): World
      reads this, iface, audioEmitters
    {
      Audio2Runs.World(map i | 0 <= i < |audioEmitters| :: audioEmitters[i].View(), iface.View(), closedLog)
    }

    ghost predicate Ready(closedLog: map<int, seq<Message>>)
      reads this, iface, audioEmitters
    {
      && Sorted(audioEmitters) && WorldOk(World(closedLog))
      && forall i :: 0 <= i < |audioEmitters| ==>
           audioEmitters[i].iface == iface && audioEmitters[i].emitterRegistered
    }

    /** Every emitter gets its turn, and what they sent goes to the audio thread as one
        batch. */
    method OnFrame(ghost closedLog: map<int, seq<Message>>)
      requires Ready(closedLog)
      modifies audioEmitters, iface
      ensures Ready(closedLog)
      ensures Steps(old(World(closedLog)), FrameActions(|audioEmitters|)) == Some(World(closedLog))
    {
      hide WorldOk, Steps;
      ghost var w := World(closedLog);
      NothingDone(w);
      for i := 0 to |audioEmitters|
        invariant Ready(closedLog) && Steps(w, OnFrames(i)) == Some(World(closedLog))
      {
        FrameOne(i, closedLog, w);
      }
      FlushAll(closedLog, w);
    }

    method FlushAll(ghost closedLog: map<int, seq<Message>>, ghost w: World)
      requires Ready(closedLog) && WorldOk(w) && Steps(w, OnFrames(|audioEmitters|)) == Some(World(closedLog))
      modifies iface
      ensures Ready(closedLog) && Steps(w, FrameActions(|audioEmitters|)) == Some(World(closedLog))
    {
      hide WorldOk, Step, Steps, Audio2Model.FlushBatchedMessages;
      FlushIsStep(World(closedLog));
      StepsMore(w, OnFrames(|audioEmitters|), Flush);
      ghost var before := World(closedLog);
      iface.FlushBatchedMessages();
      assert World(closedLog) == before.(io := iface.View());
    }

    lemma NothingDone(w: World)
      requires WorldOk(w)
      ensures Steps(w, OnFrames(0)) == Some(w)
    {
      assert OnFrames(0) == [];
    }

    method FrameOne(i: nat, ghost closedLog: map<int, seq<Message>>, ghost w: World)
      requires Ready(closedLog) && i < |audioEmitters|
      requires WorldOk(w) && Steps(w, OnFrames(i)) == Some(World(closedLog))
      modifies audioEmitters[i], iface
      ensures Ready(closedLog) && Steps(w, OnFrames(i + 1)) == Some(World(closedLog))
    {
      hide WorldOk, Step, Steps, Audio2Model.OnFrame, With;
      ghost var before := World(closedLog);
      assert before.emitters[i] == audioEmitters[i].View();
      ClientIsOk(before, i);
      OneMoreOnFrame(w, i, before);
      audioEmitters[i].OnFrame();
      WorldWith(closedLog, before, i);
    }

    /** One emitter and the interface have changed. */
    lemma WorldWith(closedLog: map<int, seq<Message>>, before: World, i: nat)
      requires i < |audioEmitters| && audioEmitters[i].iface == iface && before.closedLog == closedLog
      requires before.emitters.Keys == World(closedLog).emitters.Keys
      requires forall k :: 0 <= k < |audioEmitters| && k != i ==> before.emitters[k] == audioEmitters[k].View()
      ensures World(closedLog) == With(before, i, audioEmitters[i].Both())
    {
      assert World(closedLog).emitters == before.emitters[i := audioEmitters[i].View()];
    }

    /** The emitter takes its place in the list. */
    method RegisterAudioEmitter(e: Audio2Emitter)
      requires Sorted(audioEmitters) && e.address !in Addresses(audioEmitters)
      modifies this`audioEmitters
      ensures Sorted(audioEmitters)
      ensures exists i :: 0 <= i <= |old(audioEmitters)| &&
                          audioEmitters == old(audioEmitters)[..i] + [e] + old(audioEmitters)[i..]
    {
      var addresses := Addresses(audioEmitters);
      var found := BinarySearchIndex(addresses, e.address);
      assert found == INVALID;
      var i := InsertSorted(addresses, e.address);
      InsertedSorted(audioEmitters, e, i);
      audioEmitters := audioEmitters[..i] + [e] + audioEmitters[i..];
    }

    /** The emitter leaves the list. */
    method UnregisterAudioEmitter(e: Audio2Emitter)
      requires Sorted(audioEmitters) && e in audioEmitters
      modifies this`audioEmitters
      ensures Sorted(audioEmitters)
      ensures exists i :: 0 <= i < |old(audioEmitters)| && old(audioEmitters)[i] == e &&
                          audioEmitters == Without(old(audioEmitters), i)
    {
      var addresses := Addresses(audioEmitters);
      ghost var k :| 0 <= k < |audioEmitters| && audioEmitters[k] == e;
      assert addresses[k] == e.address;
      var index := BinarySearchIndex(addresses, e.address);
      WithoutSorted(audioEmitters, e, index);
      audioEmitters := Without(audioEmitters, index);
    }
  }

  /** The turn of one more emitter. */
  lemma OneMoreOnFrame(w: World, i: nat, before: World)
    requires WorldOk(w) && Steps(w, OnFrames(i)) == Some(before)
    requires WorldOk(before) && i in before.emitters && before.emitters[i].registered
    ensures CanValidate(ClientAt(before, i)) && CanRead(ClientAt(before, i))
    ensures var after := With(before, i, Audio2Model.OnFrame(ClientAt(before, i)));
            WorldOk(after) && Steps(w, OnFrames(i + 1)) == Some(after)
    ensures Audio2Model.OnFrame(ClientAt(before, i)).e.registered
  {
    hide WorldOk, Step, Steps, Audio2Model.OnFrame, With, CanValidate, CanRead, Enabled;
    OnFrameIsStep(before, i);
    StepsMore(w, OnFrames(i), EmitterOnFrame(i));
    StepKeeps(before, EmitterOnFrame(i));
    assert OnFrames(i + 1) == OnFrames(i) + [EmitterOnFrame(i)];
  }

  function Without(emitters: seq<Audio2Emitter>, i: nat): seq<Audio2Emitter>
    requires i < |emitters|
  {
    emitters[..i] + emitters[i + 1..]
  }

  /** The address tells which emitter it is. */
  lemma WithoutSorted(emitters: seq<Audio2Emitter>, e: Audio2Emitter, i: nat)
    requires Sorted(emitters) && e in emitters && i < |emitters| && emitters[i].address == e.address
    ensures emitters[i] == e && Sorted(Without(emitters, i))
  {
    var k :| 0 <= k < |emitters| && emitters[k] == e;
    assert emitters[i].address == emitters[k].address;
  }

  lemma InsertedSorted(emitters: seq<Audio2Emitter>, e: Audio2Emitter, i: nat)
    requires Sorted(emitters) && i <= |emitters|
    requires forall j :: 0 <= j < |emitters| ==>
             if j < i then emitters[j].address < e.address else e.address < emitters[j].address
    ensures Sorted(emitters[..i] + [e] + emitters[i..])
  {
    var s := emitters[..i] + [e] + emitters[i..];
    forall a, b | 0 <= a < b < |s|
      ensures s[a].address < s[b].address
    {
      assert s[a] == if a < i then emitters[a] else if a == i then e else emitters[a - 1];
      assert s[b] == if b < i then emitters[b] else if b == i then e else emitters[b - 1];
    }
  }

  lemma FlushIsStep(w: World)
    requires WorldOk(w)
    ensures Enabled(w, Flush) && Step(w, Flush) == w.(io := Audio2Model.FlushBatchedMessages(w.io))
    ensures WorldOk(Step(w, Flush))
  {
    hide WorldOk;
    StepKeeps(w, Flush);
  }

  lemma OnFrameIsStep(w: World, i: int)
    requires WorldOk(w) && i in w.emitters && w.emitters[i].registered
    ensures CanValidate(ClientAt(w, i)) && CanRead(ClientAt(w, i)) && Enabled(w, EmitterOnFrame(i))
    ensures Step(w, EmitterOnFrame(i)) == With(w, i, Audio2Model.OnFrame(ClientAt(w, i)))
    ensures Audio2Model.OnFrame(ClientAt(w, i)).e.registered
  {
    hide WorldOk, Audio2Model.OnFrame, IoOk, EmitterOk, QuestionsOk, Acts, HandleOf;
    ClientIsOk(w, i);
    OnFrameKeeps(ClientAt(w, i));
  }
}
