/** A block log whose index cannot be rebuilt. */
module BlockLogCases {
  import opened Basics
  import opened LogFormat
  import opened BlockLogClass

  /** The smallest packed block: its number, less one, and nothing else of interest. */
  function Smallest(num: nat): (data: Bytes)
    requires 1 <= num < TWO32
    ensures Packed(data, num) && |data| == MIN_PACKED
  {
    var n := num - 1;
    var data := seq(14, _ => 0) + [n / 0x100_0000, n / 0x1_0000 % 256, n / 256 % 256, n % 256] + seq(28, _ => 0);
    assert data[14] == n / 0x100_0000 && data[15] == n / 0x1_0000 % 256 && data[16] == n / 256 % 256 && data[17] == n % 256;
    data
  }

  /** After 2^29 blocks the log is in order, and construct_index fails on it. */
  method TooManyBlocks() returns (log: BlockLog, r: Rebuilt)
    ensures |log.file| == 16 + TWO29 * (MIN_PACKED + 8) && r == Failed
  {
    log := new BlockLog(1, []);
    for i := 0 to TWO29
      invariant log.Valid() && fresh(log) && log.firstNum == 1 && |log.index| == i
      invariant |log.file| == 16 + i * (MIN_PACKED + 8)
    {
      hide Packed;
      var appended := log.Append(Smallest(i + 1), i + 1);
    }
    r := log.RebuildIndex(8, 1);
  }
}
