/** The repository's two test cases, stated as postconditions the model is
    proved to meet. */
module ZipWithTests {
  import opened Iterators
  import opened ZipWithAdaptor

  /** `std::cmp::max`: the second argument on a tie. */
  function Max(x: int, y: int): int {
    if y >= x then y else x
  }

  /** `zip_with_maxes_func`: the free function over two vector iterators. */
  method ZipWithMaxesFunc() returns (result: seq<int>)
    ensures result == [4, 44, -8]
  {
    var left := new SeqIter([0, 44, -12]);
    var right := new SeqIter([4, 5, -8]);
    var z := new ZipWith(left, right, Max);
    result := z.Collect();
  }

  /** `zip_with_maxes_meth`: the method form over two slice iterators. */
  method ZipWithMaxesMeth() returns (result: seq<int>)
    ensures result == [4, 5, 9]
  {
    var left := new SeqIter([1, 2, 9]);
    var right := new SeqIter([4, 5, 6]);
    var z := IntoZipWith(left, right, Max);
    result := z.Collect();
  }
}
