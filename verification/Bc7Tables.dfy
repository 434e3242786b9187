/** The tables of the block format: partitions and anchor texels. */
module Bc7Tables {

  type Subset2 = s: int | 0 <= s < 2

  type Subset3 = s: int | 0 <= s < 3

  /** A texel other than the first. */
  type Anchor = t: int | 0 < t < 16 witness 1

  /** The anchor of the second of two subsets. */
  function Anchor2(p: nat): Anchor
    requires p < 64
  {
    match p
    case 0 => 15  case 1 => 15  case 2 => 15  case 3 => 15
    case 4 => 15  case 5 => 15  case 6 => 15  case 7 => 15
    case 8 => 15  case 9 => 15  case 10 => 15  case 11 => 15
    case 12 => 15  case 13 => 15  case 14 => 15  case 15 => 15
    case 16 => 15  case 17 => 2  case 18 => 8  case 19 => 2
    case 20 => 2  case 21 => 8  case 22 => 8  case 23 => 15
    case 24 => 2  case 25 => 8  case 26 => 2  case 27 => 2
    case 28 => 8  case 29 => 8  case 30 => 2  case 31 => 2
    case 32 => 15  case 33 => 15  case 34 => 6  case 35 => 8
    case 36 => 2  case 37 => 8  case 38 => 15  case 39 => 15
    case 40 => 2  case 41 => 8  case 42 => 2  case 43 => 2
    case 44 => 2  case 45 => 15  case 46 => 15  case 47 => 6
    case 48 => 6  case 49 => 2  case 50 => 6  case 51 => 8
    case 52 => 15  case 53 => 15  case 54 => 2  case 55 => 2
    case 56 => 15  case 57 => 15  case 58 => 15  case 59 => 15
    case 60 => 3  case 61 => 6  case 62 => 6  case _ => 8
  }

  /** The anchor of the second of three subsets. */
  function Anchor3a(p: nat): Anchor
    requires p < 64
  {
    match p
    case 0 => 3  case 1 => 3  case 2 => 15  case 3 => 15
    case 4 => 8  case 5 => 3  case 6 => 15  case 7 => 15
    case 8 => 8  case 9 => 8  case 10 => 6  case 11 => 6
    case 12 => 6  case 13 => 5  case 14 => 3  case 15 => 3
    case 16 => 3  case 17 => 3  case 18 => 8  case 19 => 15
    case 20 => 3  case 21 => 3  case 22 => 6  case 23 => 10
    case 24 => 5  case 25 => 8  case 26 => 8  case 27 => 6
    case 28 => 8  case 29 => 5  case 30 => 15  case 31 => 15
    case 32 => 8  case 33 => 15  case 34 => 3  case 35 => 5
    case 36 => 6  case 37 => 10  case 38 => 8  case 39 => 15
    case 40 => 15  case 41 => 3  case 42 => 15  case 43 => 5
    case 44 => 15  case 45 => 15  case 46 => 15  case 47 => 15
    case 48 => 3  case 49 => 15  case 50 => 5  case 51 => 5
    case 52 => 5  case 53 => 8  case 54 => 5  case 55 => 10
    case 56 => 5  case 57 => 10  case 58 => 8  case 59 => 13
    case 60 => 15  case 61 => 12  case 62 => 3  case _ => 3
  }

  /** The anchor of the third of three subsets. */
  function Anchor3b(p: nat): Anchor
    requires p < 64
  {
    match p
    case 0 => 15  case 1 => 8  case 2 => 8  case 3 => 3
    case 4 => 15  case 5 => 15  case 6 => 3  case 7 => 8
    case 8 => 15  case 9 => 15  case 10 => 15  case 11 => 15
    case 12 => 15  case 13 => 15  case 14 => 15  case 15 => 8
    case 16 => 15  case 17 => 8  case 18 => 15  case 19 => 3
    case 20 => 15  case 21 => 8  case 22 => 15  case 23 => 8
    case 24 => 3  case 25 => 15  case 26 => 6  case 27 => 10
    case 28 => 15  case 29 => 15  case 30 => 10  case 31 => 8
    case 32 => 15  case 33 => 3  case 34 => 15  case 35 => 10
    case 36 => 10  case 37 => 8  case 38 => 9  case 39 => 10
    case 40 => 6  case 41 => 15  case 42 => 8  case 43 => 15
    case 44 => 3  case 45 => 6  case 46 => 6  case 47 => 8
    case 48 => 15  case 49 => 3  case 50 => 15  case 51 => 15
    case 52 => 15  case 53 => 15  case 54 => 15  case 55 => 15
    case 56 => 15  case 57 => 15  case 58 => 15  case 59 => 15
    case 60 => 3  case 61 => 15  case 62 => 15  case _ => 8
  }

  function Partition2A(p: nat): (row: seq<Subset2>)
    requires 0 <= p < 16
    ensures |row| == 16
  {
    match p
    case 0 => [0, 0, 1, 1, 0, 0, 1, 1, 0, 0, 1, 1, 0, 0, 1, 1]
    case 1 => [0, 0, 0, 1, 0, 0, 0, 1, 0, 0, 0, 1, 0, 0, 0, 1]
    case 2 => [0, 1, 1, 1, 0, 1, 1, 1, 0, 1, 1, 1, 0, 1, 1, 1]
    case 3 => [0, 0, 0, 1, 0, 0, 1, 1, 0, 0, 1, 1, 0, 1, 1, 1]
    case 4 => [0, 0, 0, 0, 0, 0, 0, 1, 0, 0, 0, 1, 0, 0, 1, 1]
    case 5 => [0, 0, 1, 1, 0, 1, 1, 1, 0, 1, 1, 1, 1, 1, 1, 1]
    case 6 => [0, 0, 0, 1, 0, 0, 1, 1, 0, 1, 1, 1, 1, 1, 1, 1]
    case 7 => [0, 0, 0, 0, 0, 0, 0, 1, 0, 0, 1, 1, 0, 1, 1, 1]
    case 8 => [0, 0, 0, 0, 0, 0, 0, 0, 0, 0, 0, 1, 0, 0, 1, 1]
    case 9 => [0, 0, 1, 1, 0, 1, 1, 1, 1, 1, 1, 1, 1, 1, 1, 1]
    case 10 => [0, 0, 0, 0, 0, 0, 0, 1, 0, 1, 1, 1, 1, 1, 1, 1]
    case 11 => [0, 0, 0, 0, 0, 0, 0, 0, 0, 0, 0, 1, 0, 1, 1, 1]
    case 12 => [0, 0, 0, 1, 0, 1, 1, 1, 1, 1, 1, 1, 1, 1, 1, 1]
    case 13 => [0, 0, 0, 0, 0, 0, 0, 0, 1, 1, 1, 1, 1, 1, 1, 1]
    case 14 => [0, 0, 0, 0, 1, 1, 1, 1, 1, 1, 1, 1, 1, 1, 1, 1]
    case _ => [0, 0, 0, 0, 0, 0, 0, 0, 0, 0, 0, 0, 1, 1, 1, 1]
  }

  function Partition2B(p: nat): (row: seq<Subset2>)
    requires 16 <= p < 32
    ensures |row| == 16
  {
    match p
    case 16 => [0, 0, 0, 0, 1, 0, 0, 0, 1, 1, 1, 0, 1, 1, 1, 1]
    case 17 => [0, 1, 1, 1, 0, 0, 0, 1, 0, 0, 0, 0, 0, 0, 0, 0]
    case 18 => [0, 0, 0, 0, 0, 0, 0, 0, 1, 0, 0, 0, 1, 1, 1, 0]
    case 19 => [0, 1, 1, 1, 0, 0, 1, 1, 0, 0, 0, 1, 0, 0, 0, 0]
    case 20 => [0, 0, 1, 1, 0, 0, 0, 1, 0, 0, 0, 0, 0, 0, 0, 0]
    case 21 => [0, 0, 0, 0, 1, 0, 0, 0, 1, 1, 0, 0, 1, 1, 1, 0]
    case 22 => [0, 0, 0, 0, 0, 0, 0, 0, 1, 0, 0, 0, 1, 1, 0, 0]
    case 23 => [0, 1, 1, 1, 0, 0, 1, 1, 0, 0, 1, 1, 0, 0, 0, 1]
    case 24 => [0, 0, 1, 1, 0, 0, 0, 1, 0, 0, 0, 1, 0, 0, 0, 0]
    case 25 => [0, 0, 0, 0, 0, 0, 0, 0, 1, 0, 0, 0, 1, 0, 0, 0]
    case 26 => [0, 1, 1, 0, 0, 1, 1, 0, 0, 1, 1, 0, 0, 1, 1, 0]
    case 27 => [0, 0, 1, 1, 0, 1, 1, 0, 0, 1, 1, 0, 1, 1, 0, 0]
    case 28 => [0, 0, 0, 1, 0, 1, 1, 1, 1, 1, 1, 0, 1, 0, 0, 0]
    case 29 => [0, 0, 0, 0, 1, 1, 1, 1, 1, 1, 1, 1, 0, 0, 0, 0]
    case 30 => [0, 1, 1, 0, 0, 0, 1, 1, 1, 1, 0, 0, 0, 1, 1, 0]
    case _ => [0, 0, 1, 1, 1, 0, 0, 1, 1, 0, 0, 1, 1, 1, 0, 0]
  }

  function Partition2C(p: nat): (row: seq<Subset2>)
    requires 32 <= p < 48
    ensures |row| == 16
  {
    match p
    case 32 => [0, 1, 0, 1, 0, 1, 0, 1, 0, 1, 0, 1, 0, 1, 0, 1]
    case 33 => [0, 0, 0, 0, 1, 1, 1, 1, 0, 0, 0, 0, 1, 1, 1, 1]
    case 34 => [0, 1, 0, 1, 1, 0, 1, 0, 0, 1, 0, 1, 1, 0, 1, 0]
    case 35 => [0, 0, 1, 1, 0, 0, 1, 1, 1, 1, 0, 0, 1, 1, 0, 0]
    case 36 => [0, 0, 1, 1, 1, 1, 0, 0, 0, 0, 1, 1, 1, 1, 0, 0]
    case 37 => [0, 1, 0, 1, 0, 1, 0, 1, 1, 0, 1, 0, 1, 0, 1, 0]
    case 38 => [0, 1, 1, 0, 1, 0, 0, 1, 0, 1, 1, 0, 1, 0, 0, 1]
    case 39 => [0, 1, 0, 1, 1, 0, 1, 0, 1, 0, 1, 0, 0, 1, 0, 1]
    case 40 => [0, 1, 1, 1, 0, 0, 1, 1, 1, 1, 0, 0, 1, 1, 1, 0]
    case 41 => [0, 0, 0, 1, 0, 0, 1, 1, 1, 1, 0, 0, 1, 0, 0, 0]
    case 42 => [0, 0, 1, 1, 0, 0, 1, 0, 0, 1, 0, 0, 1, 1, 0, 0]
    case 43 => [0, 0, 1, 1, 1, 0, 1, 1, 1, 1, 0, 1, 1, 1, 0, 0]
    case 44 => [0, 1, 1, 0, 1, 0, 0, 1, 1, 0, 0, 1, 0, 1, 1, 0]
    case 45 => [0, 0, 1, 1, 1, 1, 0, 0, 1, 1, 0, 0, 0, 0, 1, 1]
    case 46 => [0, 1, 1, 0, 0, 1, 1, 0, 1, 0, 0, 1, 1, 0, 0, 1]
    case _ => [0, 0, 0, 0, 0, 1, 1, 0, 0, 1, 1, 0, 0, 0, 0, 0]
  }

  function Partition2D(p: nat): (row: seq<Subset2>)
    requires 48 <= p < 64
    ensures |row| == 16
  {
    match p
    case 48 => [0, 1, 0, 0, 1, 1, 1, 0, 0, 1, 0, 0, 0, 0, 0, 0]
    case 49 => [0, 0, 1, 0, 0, 1, 1, 1, 0, 0, 1, 0, 0, 0, 0, 0]
    case 50 => [0, 0, 0, 0, 0, 0, 1, 0, 0, 1, 1, 1, 0, 0, 1, 0]
    case 51 => [0, 0, 0, 0, 0, 1, 0, 0, 1, 1, 1, 0, 0, 1, 0, 0]
    case 52 => [0, 1, 1, 0, 1, 1, 0, 0, 1, 0, 0, 1, 0, 0, 1, 1]
    case 53 => [0, 0, 1, 1, 0, 1, 1, 0, 1, 1, 0, 0, 1, 0, 0, 1]
    case 54 => [0, 1, 1, 0, 0, 0, 1, 1, 1, 0, 0, 1, 1, 1, 0, 0]
    case 55 => [0, 0, 1, 1, 1, 0, 0, 1, 1, 1, 0, 0, 0, 1, 1, 0]
    case 56 => [0, 1, 1, 0, 1, 1, 0, 0, 1, 1, 0, 0, 1, 0, 0, 1]
    case 57 => [0, 1, 1, 0, 0, 0, 1, 1, 0, 0, 1, 1, 1, 0, 0, 1]
    case 58 => [0, 1, 1, 1, 1, 1, 1, 0, 1, 0, 0, 0, 0, 0, 0, 1]
    case 59 => [0, 0, 0, 1, 1, 0, 0, 0, 1, 1, 1, 0, 0, 1, 1, 1]
    case 60 => [0, 0, 0, 0, 1, 1, 1, 1, 0, 0, 1, 1, 0, 0, 1, 1]
    case 61 => [0, 0, 1, 1, 0, 0, 1, 1, 1, 1, 1, 1, 0, 0, 0, 0]
    case 62 => [0, 0, 1, 0, 0, 0, 1, 0, 1, 1, 1, 0, 1, 1, 1, 0]
    case _ => [0, 1, 0, 0, 0, 1, 0, 0, 0, 1, 1, 1, 0, 1, 1, 1]
  }

  /** The subset that each of the 16 texels belongs to, for every partition into two. */
  function Partition2(p: nat): (row: seq<Subset2>)
    requires p < 64
    ensures |row| == 16
  {
    if p < 16 then Partition2A(p) else if p < 32 then Partition2B(p) else if p < 48 then Partition2C(p)
      else Partition2D(p)
  }

  function Partition3A(p: nat): (row: seq<Subset3>)
    requires 0 <= p < 16
    ensures |row| == 16
  {
    match p
    case 0 => [0, 0, 1, 1, 0, 0, 1, 1, 0, 2, 2, 1, 2, 2, 2, 2]
    case 1 => [0, 0, 0, 1, 0, 0, 1, 1, 2, 2, 1, 1, 2, 2, 2, 1]
    case 2 => [0, 0, 0, 0, 2, 0, 0, 1, 2, 2, 1, 1, 2, 2, 1, 1]
    case 3 => [0, 2, 2, 2, 0, 0, 2, 2, 0, 0, 1, 1, 0, 1, 1, 1]
    case 4 => [0, 0, 0, 0, 0, 0, 0, 0, 1, 1, 2, 2, 1, 1, 2, 2]
    case 5 => [0, 0, 1, 1, 0, 0, 1, 1, 0, 0, 2, 2, 0, 0, 2, 2]
    case 6 => [0, 0, 2, 2, 0, 0, 2, 2, 1, 1, 1, 1, 1, 1, 1, 1]
    case 7 => [0, 0, 1, 1, 0, 0, 1, 1, 2, 2, 1, 1, 2, 2, 1, 1]
    case 8 => [0, 0, 0, 0, 0, 0, 0, 0, 1, 1, 1, 1, 2, 2, 2, 2]
    case 9 => [0, 0, 0, 0, 1, 1, 1, 1, 1, 1, 1, 1, 2, 2, 2, 2]
    case 10 => [0, 0, 0, 0, 1, 1, 1, 1, 2, 2, 2, 2, 2, 2, 2, 2]
    case 11 => [0, 0, 1, 2, 0, 0, 1, 2, 0, 0, 1, 2, 0, 0, 1, 2]
    case 12 => [0, 1, 1, 2, 0, 1, 1, 2, 0, 1, 1, 2, 0, 1, 1, 2]
    case 13 => [0, 1, 2, 2, 0, 1, 2, 2, 0, 1, 2, 2, 0, 1, 2, 2]
    case 14 => [0, 0, 1, 1, 0, 1, 1, 2, 1, 1, 2, 2, 1, 2, 2, 2]
    case _ => [0, 0, 1, 1, 2, 0, 0, 1, 2, 2, 0, 0, 2, 2, 2, 0]
  }

  function Partition3B(p: nat): (row: seq<Subset3>)
    requires 16 <= p < 32
    ensures |row| == 16
  {
    match p
    case 16 => [0, 0, 0, 1, 0, 0, 1, 1, 0, 1, 1, 2, 1, 1, 2, 2]
    case 17 => [0, 1, 1, 1, 0, 0, 1, 1, 2, 0, 0, 1, 2, 2, 0, 0]
    case 18 => [0, 0, 0, 0, 1, 1, 2, 2, 1, 1, 2, 2, 1, 1, 2, 2]
    case 19 => [0, 0, 2, 2, 0, 0, 2, 2, 0, 0, 2, 2, 1, 1, 1, 1]
    case 20 => [0, 1, 1, 1, 0, 1, 1, 1, 0, 2, 2, 2, 0, 2, 2, 2]
    case 21 => [0, 0, 0, 1, 0, 0, 0, 1, 2, 2, 2, 1, 2, 2, 2, 1]
    case 22 => [0, 0, 0, 0, 0, 0, 1, 1, 0, 1, 2, 2, 0, 1, 2, 2]
    case 23 => [0, 0, 0, 0, 1, 1, 0, 0, 2, 2, 1, 0, 2, 2, 1, 0]
    case 24 => [0, 1, 2, 2, 0, 1, 2, 2, 0, 0, 1, 1, 0, 0, 0, 0]
    case 25 => [0, 0, 1, 2, 0, 0, 1, 2, 1, 1, 2, 2, 2, 2, 2, 2]
    case 26 => [0, 1, 1, 0, 1, 2, 2, 1, 1, 2, 2, 1, 0, 1, 1, 0]
    case 27 => [0, 0, 0, 0, 0, 1, 1, 0, 1, 2, 2, 1, 1, 2, 2, 1]
    case 28 => [0, 0, 2, 2, 1, 1, 0, 2, 1, 1, 0, 2, 0, 0, 2, 2]
    case 29 => [0, 1, 1, 0, 0, 1, 1, 0, 2, 0, 0, 2, 2, 2, 2, 2]
    case 30 => [0, 0, 1, 1, 0, 1, 2, 2, 0, 1, 2, 2, 0, 0, 1, 1]
    case _ => [0, 0, 0, 0, 2, 0, 0, 0, 2, 2, 1, 1, 2, 2, 2, 1]
  }

  function Partition3C(p: nat): (row: seq<Subset3>)
    requires 32 <= p < 48
    ensures |row| == 16
  {
    match p
    case 32 => [0, 0, 0, 0, 0, 0, 0, 2, 1, 1, 2, 2, 1, 2, 2, 2]
    case 33 => [0, 2, 2, 2, 0, 0, 2, 2, 0, 0, 1, 2, 0, 0, 1, 1]
    case 34 => [0, 0, 1, 1, 0, 0, 1, 2, 0, 0, 2, 2, 0, 2, 2, 2]
    case 35 => [0, 1, 2, 0, 0, 1, 2, 0, 0, 1, 2, 0, 0, 1, 2, 0]
    case 36 => [0, 0, 0, 0, 1, 1, 1, 1, 2, 2, 2, 2, 0, 0, 0, 0]
    case 37 => [0, 1, 2, 0, 1, 2, 0, 1, 2, 0, 1, 2, 0, 1, 2, 0]
    case 38 => [0, 1, 2, 0, 2, 0, 1, 2, 1, 2, 0, 1, 0, 1, 2, 0]
    case 39 => [0, 0, 1, 1, 2, 2, 0, 0, 1, 1, 2, 2, 0, 0, 1, 1]
    case 40 => [0, 0, 1, 1, 1, 1, 2, 2, 2, 2, 0, 0, 0, 0, 1, 1]
    case 41 => [0, 1, 0, 1, 0, 1, 0, 1, 2, 2, 2, 2, 2, 2, 2, 2]
    case 42 => [0, 0, 0, 0, 0, 0, 0, 0, 2, 1, 2, 1, 2, 1, 2, 1]
    case 43 => [0, 0, 2, 2, 1, 1, 2, 2, 0, 0, 2, 2, 1, 1, 2, 2]
    case 44 => [0, 0, 2, 2, 0, 0, 1, 1, 0, 0, 2, 2, 0, 0, 1, 1]
    case 45 => [0, 2, 2, 0, 1, 2, 2, 1, 0, 2, 2, 0, 1, 2, 2, 1]
    case 46 => [0, 1, 0, 1, 2, 2, 2, 2, 2, 2, 2, 2, 0, 1, 0, 1]
    case _ => [0, 0, 0, 0, 2, 1, 2, 1, 2, 1, 2, 1, 2, 1, 2, 1]
  }

  function Partition3D(p: nat): (row: seq<Subset3>)
    requires 48 <= p < 64
    ensures |row| == 16
  {
    match p
    case 48 => [0, 1, 0, 1, 0, 1, 0, 1, 0, 1, 0, 1, 2, 2, 2, 2]
    case 49 => [0, 2, 2, 2, 0, 1, 1, 1, 0, 2, 2, 2, 0, 1, 1, 1]
    case 50 => [0, 0, 0, 2, 1, 1, 1, 2, 0, 0, 0, 2, 1, 1, 1, 2]
    case 51 => [0, 0, 0, 0, 2, 1, 1, 2, 2, 1, 1, 2, 2, 1, 1, 2]
    case 52 => [0, 2, 2, 2, 0, 1, 1, 1, 0, 1, 1, 1, 0, 2, 2, 2]
    case 53 => [0, 0, 0, 2, 1, 1, 1, 2, 1, 1, 1, 2, 0, 0, 0, 2]
    case 54 => [0, 1, 1, 0, 0, 1, 1, 0, 0, 1, 1, 0, 2, 2, 2, 2]
    case 55 => [0, 0, 0, 0, 0, 0, 0, 0, 2, 1, 1, 2, 2, 1, 1, 2]
    case 56 => [0, 1, 1, 0, 0, 1, 1, 0, 2, 2, 2, 2, 2, 2, 2, 2]
    case 57 => [0, 0, 2, 2, 0, 0, 1, 1, 0, 0, 1, 1, 0, 0, 2, 2]
    case 58 => [0, 0, 2, 2, 1, 1, 2, 2, 1, 1, 2, 2, 0, 0, 2, 2]
    case 59 => [0, 0, 0, 0, 0, 0, 0, 0, 0, 0, 0, 0, 2, 1, 1, 2]
    case 60 => [0, 0, 0, 2, 0, 0, 0, 1, 0, 0, 0, 2, 0, 0, 0, 1]
    case 61 => [0, 2, 2, 2, 1, 2, 2, 2, 0, 2, 2, 2, 1, 2, 2, 2]
    case 62 => [0, 1, 0, 1, 2, 2, 2, 2, 2, 2, 2, 2, 2, 2, 2, 2]
    case _ => [0, 1, 1, 1, 2, 0, 1, 1, 2, 2, 0, 1, 2, 2, 2, 0]
  }

  /** The subset that each of the 16 texels belongs to, for every partition into three. */
  function Partition3(p: nat): (row: seq<Subset3>)
    requires p < 64
    ensures |row| == 16
  {
    if p < 16 then Partition3A(p) else if p < 32 then Partition3B(p) else if p < 48 then Partition3C(p)
      else Partition3D(p)
  }

  lemma AnchorInA(p: nat)
    requires 0 <= p < 16
    ensures Partition2(p)[Anchor2(p)] == 1 <==> p != 60 && p != 63
  {
  }

  lemma AnchorInB(p: nat)
    requires 16 <= p < 32
    ensures Partition2(p)[Anchor2(p)] == 1 <==> p != 60 && p != 63
  {
  }

  lemma AnchorInC(p: nat)
    requires 32 <= p < 48
    ensures Partition2(p)[Anchor2(p)] == 1 <==> p != 60 && p != 63
  {
  }

  lemma AnchorInD(p: nat)
    requires 48 <= p < 56
    ensures Partition2(p)[Anchor2(p)] == 1 <==> p != 60 && p != 63
  {
  }

  lemma AnchorInE(p: nat)
    requires 56 <= p < 64
    ensures Partition2(p)[Anchor2(p)] == 1 <==> p != 60 && p != 63
  {
  }

  /** The texel whose index is shortened for the second of two subsets belongs to that subset in all
      partitions but two. */
  lemma AnchorInItsSubsetIff(p: nat)
    requires p < 64
    ensures Partition2(p)[Anchor2(p)] == 1 <==> p != 60 && p != 63
  {
    hide Partition2, Anchor2;
    if p < 16 { AnchorInA(p); }
    else if p < 32 { AnchorInB(p); }
    else if p < 48 { AnchorInC(p); }
    else if p < 56 { AnchorInD(p); }
    else { AnchorInE(p); }
  }

  // ----- The partitions as masks -----

  /** A row of zeros and ones as a number, the first texel lowest. */
  function Mask2(row: seq<int>): int
    requires |row| == 16
  {
    row[0] + 2 * row[1] + 4 * row[2] + 8 * row[3] + 16 * row[4] + 32 * row[5]
    + 64 * row[6] + 128 * row[7] + 256 * row[8] + 512 * row[9] + 1024 * row[10]
    + 2048 * row[11] + 4096 * row[12] + 8192 * row[13] + 16384 * row[14] + 32768 * row[15]
  }

  /** A row of subsets with two bits for each. */
  function Mask3(row: seq<int>): int
    requires |row| == 16
  {
    row[0] + 4 * row[1] + 16 * row[2] + 64 * row[3] + 256 * row[4] + 1024 * row[5]
    + 4096 * row[6] + 16384 * row[7] + 65536 * row[8] + 262144 * row[9] + 1048576 * row[10]
    + 4194304 * row[11] + 16777216 * row[12] + 67108864 * row[13] + 268435456 * row[14] + 1073741824 * row[15]
  }

  /** The masks that are usual for the partitions into two subsets. */
  function UsualMask2(p: nat): int
    requires p < 64
  {
    match p
    case 0 => 0xCCCC  case 1 => 0x8888  case 2 => 0xEEEE  case 3 => 0xECC8
    case 4 => 0xC880  case 5 => 0xFEEC  case 6 => 0xFEC8  case 7 => 0xEC80
    case 8 => 0xC800  case 9 => 0xFFEC  case 10 => 0xFE80  case 11 => 0xE800
    case 12 => 0xFFE8  case 13 => 0xFF00  case 14 => 0xFFF0  case 15 => 0xF000
    case 16 => 0xF710  case 17 => 0x008E  case 18 => 0x7100  case 19 => 0x08CE
    case 20 => 0x008C  case 21 => 0x7310  case 22 => 0x3100  case 23 => 0x8CCE
    case 24 => 0x088C  case 25 => 0x1100  case 26 => 0x6666  case 27 => 0x366C
    case 28 => 0x17E8  case 29 => 0x0FF0  case 30 => 0x63C6  case 31 => 0x399C
    case 32 => 0xAAAA  case 33 => 0xF0F0  case 34 => 0x5A5A  case 35 => 0x33CC
    case 36 => 0x3C3C  case 37 => 0x55AA  case 38 => 0x9696  case 39 => 0xA55A
    case 40 => 0x73CE  case 41 => 0x13C8  case 42 => 0x324C  case 43 => 0x3BDC
    case 44 => 0x6996  case 45 => 0xC33C  case 46 => 0x9966  case 47 => 0x0660
    case 48 => 0x0272  case 49 => 0x04E4  case 50 => 0x4E40  case 51 => 0x2720
    case 52 => 0xC936  case 53 => 0x936C  case 54 => 0x39C6  case 55 => 0x639C
    case 56 => 0x9336  case 57 => 0x9CC6  case 58 => 0x817E  case 59 => 0xE718
    case 60 => 0xCCF0  case 61 => 0x0FCC  case 62 => 0x7744  case _ => 0xEE22
  }

  /** And for those into three. */
  function UsualMask3(p: nat): int
    requires p < 64
  {
    match p
    case 0 => 0xAA68_5050  case 1 => 0x6A5A_5040  case 2 => 0x5A5A_4200  case 3 => 0x5450_A0A8
    case 4 => 0xA5A5_0000  case 5 => 0xA0A0_5050  case 6 => 0x5555_A0A0  case 7 => 0x5A5A_5050
    case 8 => 0xAA55_0000  case 9 => 0xAA55_5500  case 10 => 0xAAAA_5500  case 11 => 0x9090_9090
    case 12 => 0x9494_9494  case 13 => 0xA4A4_A4A4  case 14 => 0xA9A5_9450  case 15 => 0x2A0A_4250
    case 16 => 0xA594_5040  case 17 => 0x0A42_5054  case 18 => 0xA5A5_A500  case 19 => 0x55A0_A0A0
    case 20 => 0xA8A8_5454  case 21 => 0x6A6A_4040  case 22 => 0xA4A4_5000  case 23 => 0x1A1A_0500
    case 24 => 0x0050_A4A4  case 25 => 0xAAA5_9090  case 26 => 0x1469_6914  case 27 => 0x6969_1400
    case 28 => 0xA085_85A0  case 29 => 0xAA82_1414  case 30 => 0x50A4_A450  case 31 => 0x6A5A_0200
    case 32 => 0xA9A5_8000  case 33 => 0x5090_A0A8  case 34 => 0xA8A0_9050  case 35 => 0x2424_2424
    case 36 => 0x00AA_5500  case 37 => 0x2492_4924  case 38 => 0x2449_9224  case 39 => 0x50A5_0A50
    case 40 => 0x500A_A550  case 41 => 0xAAAA_4444  case 42 => 0x6666_0000  case 43 => 0xA5A0_A5A0
    case 44 => 0x50A0_50A0  case 45 => 0x6928_6928  case 46 => 0x44AA_AA44  case 47 => 0x6666_6600
    case 48 => 0xAA44_4444  case 49 => 0x54A8_54A8  case 50 => 0x9580_9580  case 51 => 0x9696_9600
    case 52 => 0xA854_54A8  case 53 => 0x8095_9580  case 54 => 0xAA14_1414  case 55 => 0x9696_0000
    case 56 => 0xAAAA_1414  case 57 => 0xA050_50A0  case 58 => 0xA0A5_A5A0  case 59 => 0x9600_0000
    case 60 => 0x4080_4080  case 61 => 0xA9A8_A9A8  case 62 => 0xAAAA_AA44  case _ => 0x2A4A_5254
  }

  lemma Masks2From0(p: nat)
    requires 0 <= p < 8
    ensures Mask2(Partition2(p)) == UsualMask2(p)
  {
  }

  lemma Masks2From8(p: nat)
    requires 8 <= p < 16
    ensures Mask2(Partition2(p)) == UsualMask2(p)
  {
  }

  lemma Masks2From16(p: nat)
    requires 16 <= p < 24
    ensures Mask2(Partition2(p)) == UsualMask2(p)
  {
  }

  lemma Masks2From24(p: nat)
    requires 24 <= p < 32
    ensures Mask2(Partition2(p)) == UsualMask2(p)
  {
  }

  lemma Masks2From32(p: nat)
    requires 32 <= p < 40
    ensures Mask2(Partition2(p)) == UsualMask2(p)
  {
  }

  lemma Masks2From40(p: nat)
    requires 40 <= p < 48
    ensures Mask2(Partition2(p)) == UsualMask2(p)
  {
  }

  lemma Masks2From48(p: nat)
    requires 48 <= p < 56
    ensures Mask2(Partition2(p)) == UsualMask2(p)
  {
  }

  lemma Masks2From56(p: nat)
    requires 56 <= p < 64
    ensures Mask2(Partition2(p)) == UsualMask2(p)
  {
  }

  lemma Masks3From0(p: nat)
    requires 0 <= p < 8
    ensures Mask3(Partition3(p)) == UsualMask3(p)
  {
  }

  lemma Masks3From8(p: nat)
    requires 8 <= p < 16
    ensures Mask3(Partition3(p)) == UsualMask3(p)
  {
  }

  lemma Masks3From16(p: nat)
    requires 16 <= p < 24
    ensures Mask3(Partition3(p)) == UsualMask3(p)
  {
  }

  lemma Masks3From24(p: nat)
    requires 24 <= p < 32
    ensures Mask3(Partition3(p)) == UsualMask3(p)
  {
  }

  lemma Masks3From32(p: nat)
    requires 32 <= p < 40
    ensures Mask3(Partition3(p)) == UsualMask3(p)
  {
  }

  lemma Masks3From40(p: nat)
    requires 40 <= p < 48
    ensures Mask3(Partition3(p)) == UsualMask3(p)
  {
  }

  lemma Masks3From48(p: nat)
    requires 48 <= p < 56
    ensures Mask3(Partition3(p)) == UsualMask3(p)
  {
  }

  lemma Masks3From56(p: nat)
    requires 56 <= p < 64
    ensures Mask3(Partition3(p)) == UsualMask3(p)
  {
  }

  lemma PartitionMasks(p: nat)
    requires p < 64
    ensures Mask2(Partition2(p)) == UsualMask2(p) && Mask3(Partition3(p)) == UsualMask3(p)
  {
    hide Partition2, Partition3, Mask2, Mask3, UsualMask2, UsualMask3;
    if p < 8 {
      Masks2From0(p);
      Masks3From0(p);
    } else if p < 16 {
      Masks2From8(p);
      Masks3From8(p);
    } else if p < 24 {
      Masks2From16(p);
      Masks3From16(p);
    } else if p < 32 {
      Masks2From24(p);
      Masks3From24(p);
    } else if p < 40 {
      Masks2From32(p);
      Masks3From32(p);
    } else if p < 48 {
      Masks2From40(p);
      Masks3From40(p);
    } else if p < 56 {
      Masks2From48(p);
      Masks3From48(p);
    } else {
      Masks2From56(p);
      Masks3From56(p);
    }
  }

  lemma AnchorsFrom0(p: nat)
    requires 0 <= p < 8
    ensures Partition3(p)[Anchor3a(p)] == 1
  {
    if p < 2 {} else if p < 4 {} else if p < 6 {} else {}
  }

  lemma LaterAnchorsFrom0(p: nat)
    requires 0 <= p < 8
    ensures Partition3(p)[Anchor3b(p)] == 2
  {
  }

  lemma FirstFrom0(p: nat)
    requires 0 <= p < 8
    ensures Partition2(p)[0] == 0 && Partition3(p)[0] == 0
  {
  }

  lemma AnchorsFrom8(p: nat)
    requires 8 <= p < 16
    ensures Partition3(p)[Anchor3a(p)] == 1
  {
    if p < 10 {} else if p < 12 {} else if p < 14 {} else {}
  }

  lemma LaterAnchorsFrom8(p: nat)
    requires 8 <= p < 16
    ensures Partition3(p)[Anchor3b(p)] == 2
  {
  }

  lemma FirstFrom8(p: nat)
    requires 8 <= p < 16
    ensures Partition2(p)[0] == 0 && Partition3(p)[0] == 0
  {
  }

  lemma AnchorsFrom16(p: nat)
    requires 16 <= p < 24
    ensures Partition3(p)[Anchor3a(p)] == 1
  {
    if p < 18 {} else if p < 20 {} else if p < 22 {} else {}
  }

  lemma LaterAnchorsFrom16(p: nat)
    requires 16 <= p < 24
    ensures Partition3(p)[Anchor3b(p)] == 2
  {
  }

  lemma FirstFrom16(p: nat)
    requires 16 <= p < 24
    ensures Partition2(p)[0] == 0 && Partition3(p)[0] == 0
  {
  }

  lemma AnchorsFrom24(p: nat)
    requires 24 <= p < 32
    ensures Partition3(p)[Anchor3a(p)] == 1
  {
    if p < 26 {} else if p < 28 {} else if p < 30 {} else {}
  }

  lemma LaterAnchorsFrom24(p: nat)
    requires 24 <= p < 32
    ensures Partition3(p)[Anchor3b(p)] == 2
  {
  }

  lemma FirstFrom24(p: nat)
    requires 24 <= p < 32
    ensures Partition2(p)[0] == 0 && Partition3(p)[0] == 0
  {
  }

  lemma AnchorsFrom32(p: nat)
    requires 32 <= p < 40
    ensures Partition3(p)[Anchor3a(p)] == 1
  {
    if p < 34 {} else if p < 36 {} else if p < 38 {} else {}
  }

  lemma LaterAnchorsFrom32(p: nat)
    requires 32 <= p < 40
    ensures Partition3(p)[Anchor3b(p)] == 2
  {
  }

  lemma FirstFrom32(p: nat)
    requires 32 <= p < 40
    ensures Partition2(p)[0] == 0 && Partition3(p)[0] == 0
  {
  }

  lemma AnchorsFrom40(p: nat)
    requires 40 <= p < 48
    ensures Partition3(p)[Anchor3a(p)] == 1
  {
    if p < 42 {} else if p < 44 {} else if p < 46 {} else {}
  }

  lemma LaterAnchorsFrom40(p: nat)
    requires 40 <= p < 48
    ensures Partition3(p)[Anchor3b(p)] == 2
  {
  }

  lemma FirstFrom40(p: nat)
    requires 40 <= p < 48
    ensures Partition2(p)[0] == 0 && Partition3(p)[0] == 0
  {
  }

  lemma AnchorsFrom48(p: nat)
    requires 48 <= p < 56
    ensures Partition3(p)[Anchor3a(p)] == 1
  {
    if p < 50 {} else if p < 52 {} else if p < 54 {} else {}
  }

  lemma LaterAnchorsFrom48(p: nat)
    requires 48 <= p < 56
    ensures Partition3(p)[Anchor3b(p)] == 2
  {
  }

  lemma FirstFrom48(p: nat)
    requires 48 <= p < 56
    ensures Partition2(p)[0] == 0 && Partition3(p)[0] == 0
  {
  }

  lemma AnchorsFrom56(p: nat)
    requires 56 <= p < 64
    ensures Partition3(p)[Anchor3a(p)] == 1
  {
    if p < 58 {} else if p < 60 {} else if p < 62 {} else {}
  }

  lemma LaterAnchorsFrom56(p: nat)
    requires 56 <= p < 64
    ensures Partition3(p)[Anchor3b(p)] == 2
  {
  }

  lemma FirstFrom56(p: nat)
    requires 56 <= p < 64
    ensures Partition2(p)[0] == 0 && Partition3(p)[0] == 0
  {
  }

  /** The first texel always belongs to the first subset, and with three subsets each of the other two has its own
      anchor. */
  lemma AnchorsInTheirSubsets(p: nat)
    requires p < 64
    ensures Partition2(p)[0] == 0 && Partition3(p)[0] == 0
    ensures Partition3(p)[Anchor3a(p)] == 1 && Partition3(p)[Anchor3b(p)] == 2
  {
    hide Partition2, Partition3, Anchor3a, Anchor3b;
    if p < 8 {
      AnchorsFrom0(p);
      LaterAnchorsFrom0(p);
      FirstFrom0(p);
    } else if p < 16 {
      AnchorsFrom8(p);
      LaterAnchorsFrom8(p);
      FirstFrom8(p);
    } else if p < 24 {
      AnchorsFrom16(p);
      LaterAnchorsFrom16(p);
      FirstFrom16(p);
    } else if p < 32 {
      AnchorsFrom24(p);
      LaterAnchorsFrom24(p);
      FirstFrom24(p);
    } else if p < 40 {
      AnchorsFrom32(p);
      LaterAnchorsFrom32(p);
      FirstFrom32(p);
    } else if p < 48 {
      AnchorsFrom40(p);
      LaterAnchorsFrom40(p);
      FirstFrom40(p);
    } else if p < 56 {
      AnchorsFrom48(p);
      LaterAnchorsFrom48(p);
      FirstFrom48(p);
    } else {
      AnchorsFrom56(p);
      LaterAnchorsFrom56(p);
      FirstFrom56(p);
    }
  }
}
