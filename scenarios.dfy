/** The two texts the program and its description work through: the demo
    string of src/main.rs (main) and a text dominated by one symbol. */
module Scenarios {
  import opened HuffmanNode
  import opened FrequencyCounter
  import opened Codec

  lemma HelloWorldSymbols()
    ensures forall i :: 0 <= i < |"Hello World!"| ==> "Hello World!"[i] in {'H', 'e', 'l', 'o', ' ', 'W', 'r', 'd', '!'}
    ensures forall x :: x in {'H', 'e', 'l', 'o', ' ', 'W', 'r', 'd', '!'} ==> x in "Hello World!"
  {
    var s := "Hello World!";
    assert s[0] == 'H' && s[1] == 'e' && s[2] == 'l' && s[4] == 'o' && s[5] == ' ';
    assert s[6] == 'W' && s[8] == 'r' && s[10] == 'd' && s[11] == '!';
  }

  /** The demo text has nine different characters. */
  lemma HelloWorldCount()
    ensures |Distinct("Hello World!")| == 9
  {
    HelloWorldSymbols();
    assert |{'H', 'e', 'l', 'o', ' ', 'W', 'r', 'd', '!'}| == 9;
    DistinctSize("Hello World!", {'H', 'e', 'l', 'o', ' ', 'W', 'r', 'd', '!'});
  }

  /** The demo: the tree of "Hello World!" has nine leaves, its encoding
      takes between one and eight bits per character, and decoding the
      encoding gives the text back. */
  method HelloWorld() returns (root: Node<char>, bits: seq<char>, decoded: seq<char>)
    ensures |Leaves(root)| == 9
    ensures decoded == "Hello World!"
    ensures 12 <= |bits| <= 8 * 12
  {
    HelloWorldCount();
    root, bits, decoded := EncodeDecode("Hello World!");
  }

  lemma SkewedSymbols()
    ensures forall i :: 0 <= i < |"aaaaaab"| ==> "aaaaaab"[i] in {'a', 'b'}
    ensures forall x :: x in {'a', 'b'} ==> x in "aaaaaab"
  {
    assert "aaaaaab"[0] == 'a' && "aaaaaab"[6] == 'b';
  }

  /** Six 'a' and one 'b' make two different characters. */
  lemma SkewedCount()
    ensures |Distinct("aaaaaab")| == 2
  {
    SkewedSymbols();
    assert |{'a', 'b'}| == 2;
    DistinctSize("aaaaaab", {'a', 'b'});
  }

  /** Six 'a' and one 'b': one bit per character, seven bits in all, far
      below the 56 bits of eight per character. */
  method Skewed() returns (bits: seq<char>, decoded: seq<char>)
    ensures |bits| == 7 && |bits| < 8 * 7
    ensures decoded == "aaaaaab"
  {
    SkewedCount();
    var root;
    root, bits, decoded := EncodeDecode("aaaaaab");
  }
}
